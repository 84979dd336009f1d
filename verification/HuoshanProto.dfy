/** The frame format of src/HuoshanEngine.hpp: header, optional words, length-prefixed session id and payload. */
module HuoshanProto {
  import opened Common
  import opened Words

  const FULL_CLIENT_REQ: bv8 := 0x1
  const FULL_SERVER_RSP: bv8 := 0x9
  const AUDIO_ONLY_REQ: bv8 := 0x2
  const AUDIO_ONLY_RSP: bv8 := 0xB
  const ERROR_INFO: bv8 := 0xF

  const NEG_SEQUENCE: bv8 := 2
  const MSG_WITH_EVENT: bv8 := 4

  const NO_SERIALIZATION: bv8 := 0
  const JSON: bv8 := 1
  const NO_COMPRESSION: bv8 := 0

  const START_CONNECT: bv32 := 1
  const START_SESSION: bv32 := 100
  const TASK_REQUEST: bv32 := 200
  const SAY_HELLO: bv32 := 300
  const CHAT_TTS_TEXT: bv32 := 500
  const CONNECTION_STARTED: bv32 := 50
  const SESSION_STARTED: bv32 := 150
  const SESSION_FINISHED: bv32 := 152
  const TTS_SENTENCE_START: bv32 := 350
  const TTS_ENDED: bv32 := 359
  const ASR_RESPONSE: bv32 := 451
  const ASR_ENDED: bv32 := 459

  const INT_LIMIT: nat := 0x8000_0000

  /** The bit fields of the header, each four bits wide, and the reserved byte, which the builders do not set. */
  datatype Header = Header(version: bv8, headerSize: bv8, messageType: bv8, messageFlags: bv8,
                           serialization: bv8, compression: bv8, reserved: bv8) {
    predicate Valid() {
      version < 16 && headerSize < 16 && messageType < 16 && messageFlags < 16 && serialization < 16 && compression < 16
    }

    predicate HasSequence() {
      messageFlags & NEG_SEQUENCE != 0
    }

    predicate HasEvent() {
      messageFlags & MSG_WITH_EVENT != 0
    }

    predicate IsResponse() {
      messageType == FULL_SERVER_RSP || messageType == AUDIO_ONLY_RSP
    }
  }

  function HeaderBytes(h: Header): (s: Bytes)
    ensures |s| == 4
  {
    [(h.version << 4) | h.headerSize, (h.messageType << 4) | h.messageFlags,
     (h.serialization << 4) | h.compression, h.reserved]
  }

  function ParseHeader(s: Bytes): (h: Header)
    requires |s| >= 4
    ensures h.Valid()
  {
    Header(s[0] >> 4, s[0] & 0x0F, s[1] >> 4, s[1] & 0x0F, s[2] >> 4, s[2] & 0x0F, s[3])
  }

  lemma HeaderRoundTrip(h: Header, rest: Bytes)
    requires h.Valid()
    ensures ParseHeader(HeaderBytes(h) + rest) == h
  {
  }

  lemma HeaderBytesRoundTrip(s: Bytes)
    requires |s| >= 4
    ensures HeaderBytes(ParseHeader(s)) == s[..4]
  {
  }

  // ---------------------------------------------------------------------------------------------------------------
  // Frames

  /** A frame with its optional words.  An event is `None` where the code leaves `optional.event` unassigned. */
  datatype Frame = Frame(header: Header, sequence: Option<bv32>, event: Option<bv32>, sessionId: Bytes, payload: Bytes) {
    predicate Valid() {
      && header.Valid()
      && (sequence.Some? <==> header.HasSequence())
      && (event.Some? <==> header.HasEvent())
      && 20 + |sessionId| + |payload| < INT_LIMIT
    }
  }

  function Word(w: Option<bv32>): (s: Bytes)
    ensures |s| == if w.Some? then 4 else 0
  {
    if w.Some? then ToBytesB(w.value) else []
  }

  function Prefixed(s: Bytes): (r: Bytes)
    ensures |r| == 4 + |s|
  {
    ToBytesB(Uint32(|s|)) + s
  }

  /** The layout shared by the builders that name a session and by the server's 0x9 and 0xB frames. */
  function Encode(f: Frame): Bytes {
    HeaderBytes(f.header) + Word(f.sequence) + Word(f.event) + Prefixed(f.sessionId) + Prefixed(f.payload)
  }

  /** What `parse` finds, and where its cursor ends, counted from the start of the frame.  `code` is that of an error
      frame. */
  datatype Parsed = Parsed(frame: Frame, code: Option<bv32>, end: nat)

  function WordAt(signed: bool, r: Bytes, at: nat): bv32
    requires at + 4 <= |r|
  {
    FromByteB(signed, r[at], r[at + 1], r[at + 2], r[at + 3])
  }

  function Size(signed: bool, r: Bytes, at: nat): nat
    requires at + 4 <= |r|
  {
    WordAt(signed, r, at) as int
  }

  /** A length-prefixed field starts at `at` and ends inside the frame. */
  predicate FieldFits(signed: bool, r: Bytes, at: nat) {
    at + 4 <= |r| && at + 4 + Size(signed, r, at) <= |r|
  }

  function FieldEnd(signed: bool, r: Bytes, at: nat): nat
    requires FieldFits(signed, r, at)
  {
    at + 4 + Size(signed, r, at)
  }

  function Field(signed: bool, r: Bytes, at: nat): Bytes
    requires FieldFits(signed, r, at)
  {
    r[at + 4..FieldEnd(signed, r, at)]
  }

  function SessionAt(h: Header): nat {
    4 + (if h.HasSequence() then 4 else 0) + (if h.HasEvent() then 4 else 0)
  }

  /** `parse` checks no bounds: the frame has to hold everything it announces. */
  predicate WellFormed(signed: bool, r: Bytes) {
    && 4 <= |r| < INT_LIMIT
    && var h := ParseHeader(r);
       if h.IsResponse() then
         var at := SessionAt(h);
         FieldFits(signed, r, at) && FieldFits(signed, r, FieldEnd(signed, r, at))
       else
         h.messageType == ERROR_INFO ==> 8 <= |r| && FieldFits(signed, r, 8)
  }

  function Decode(signed: bool, r: Bytes): Parsed
    requires WellFormed(signed, r)
  {
    var h := ParseHeader(r);
    if h.IsResponse() then
      var sequence := if h.HasSequence() then Some(WordAt(signed, r, 4)) else None;
      var eventAt := if h.HasSequence() then 8 else 4;
      var event := if h.HasEvent() then Some(WordAt(signed, r, eventAt)) else None;
      var at := SessionAt(h);
      var payloadAt := FieldEnd(signed, r, at);
      Parsed(Frame(h, sequence, event, Field(signed, r, at), Field(signed, r, payloadAt)), None,
             FieldEnd(signed, r, payloadAt))
    else if h.messageType == ERROR_INFO then
      Parsed(Frame(h, None, None, [], Field(signed, r, 8)), Some(WordAt(signed, r, 4)), FieldEnd(signed, r, 8))
    else
      Parsed(Frame(h, None, None, [], []), None, 4)
  }

  lemma WordBack(before: Bytes, w: bv32, after: Bytes)
    ensures var r := before + ToBytesB(w) + after;
            WordAt(false, r, |before|) == w
  {
    var r := before + ToBytesB(w) + after;
    var at, s := |before|, ToBytesB(w);
    assert r[at] == s[0] && r[at + 1] == s[1] && r[at + 2] == s[2] && r[at + 3] == s[3];
    WordRoundTrip(w);
  }

  lemma FieldBack(before: Bytes, s: Bytes, after: Bytes)
    requires |s| < INT_LIMIT
    ensures var r := before + Prefixed(s) + after;
            FieldFits(false, r, |before|) && Field(false, r, |before|) == s
            && FieldEnd(false, r, |before|) == |before| + 4 + |s|
  {
    hide ToBytesB, FromByteB, Uint32;
    var r := before + Prefixed(s) + after;
    var w := Uint32(|s|);
    assert r == before + ToBytesB(w) + (s + after);
    WordBack(before, w, s + after);
    LengthRoundTrip(|s|);
    assert r[|before| + 4..|before| + 4 + |s|] == s;
  }

  /** Where the parts of an encoded frame lie. */
  lemma EncodedParts(f: Frame)
    requires f.Valid()
    ensures var r := Encode(f);
            && ParseHeader(r) == f.header
            && (f.sequence.Some? ==> WordAt(false, r, 4) == f.sequence.value)
            && (f.event.Some? ==> WordAt(false, r, 4 + |Word(f.sequence)|) == f.event.value)
            && FieldFits(false, r, SessionAt(f.header)) && Field(false, r, SessionAt(f.header)) == f.sessionId
    ensures var r, payloadAt := Encode(f), FieldEnd(false, Encode(f), SessionAt(f.header));
            && FieldFits(false, r, payloadAt) && Field(false, r, payloadAt) == f.payload
            && FieldEnd(false, r, payloadAt) == |r|
  {
    hide ToBytesB, FromByteB, Uint32;
    var h, q, e, s, p := HeaderBytes(f.header), Word(f.sequence), Word(f.event), Prefixed(f.sessionId), Prefixed(f.payload);
    HeaderRoundTrip(f.header, q + e + s + p);
    Regroup(h, q, e, s, p);
    if f.sequence.Some? {
      WordBack(h, f.sequence.value, e + s + p);
    }
    if f.event.Some? {
      WordBack(h + q, f.event.value, s + p);
    }
    FieldBack(h + q + e, f.sessionId, p);
    FieldBack(h + q + e + s, f.payload, []);
    assert h + q + e + s + p + [] == h + q + e + s + p;
  }

  lemma Regroup(h: Bytes, q: Bytes, e: Bytes, s: Bytes, p: Bytes)
    ensures h + q + e + s + p == h + (q + e + s + p) == h + q + (e + s + p) == (h + q) + e + (s + p)
  {
  }

  /** Parsing undoes the layout: every field comes back, and the cursor ends exactly at the end of the frame. */
  lemma FrameRoundTrip(f: Frame)
    requires f.Valid() && f.header.IsResponse()
    ensures WellFormed(false, Encode(f)) && Decode(false, Encode(f)) == Parsed(f, None, |Encode(f)|)
  {
    hide ToBytesB, FromByteB, Uint32;
    EncodedParts(f);
  }

  /** The other way round: a well-formed response frame with nothing after its payload is the layout of what parsing
      finds in it. */
  lemma DecodedFrameEncodes(r: Bytes)
    requires WellFormed(false, r) && ParseHeader(r).IsResponse() && Decode(false, r).end == |r|
    ensures Encode(Decode(false, r).frame) == r
  {
    hide ToBytesB, FromByteB, Uint32;
    var f := Decode(false, r).frame;
    var at := SessionAt(f.header);
    var payloadAt := FieldEnd(false, r, at);
    var eventAt := if f.header.HasSequence() then 8 else 4;
    HeaderBytesRoundTrip(r);
    OptionalWordForth(r, 4, f.header.HasSequence());
    OptionalWordForth(r, eventAt, f.header.HasEvent());
    FieldForth(r, at);
    FieldForth(r, payloadAt);
    Pieces(r, eventAt, at, payloadAt);
  }

  lemma Pieces(r: Bytes, i: nat, j: nat, k: nat)
    requires 4 <= i <= j <= k <= |r|
    ensures r == r[..4] + r[4..i] + r[i..j] + r[j..k] + r[k..|r|]
  {
  }

  lemma OptionalWordForth(r: Bytes, at: nat, present: bool)
    requires present ==> at + 4 <= |r|
    ensures present ==> Word(Some(WordAt(false, r, at))) == r[at..at + 4]
    ensures !present && at <= |r| ==> Word(None) == r[at..at]
  {
    if present {
      WordForth(r, at);
    }
  }

  lemma WordForth(r: Bytes, at: nat)
    requires at + 4 <= |r|
    ensures ToBytesB(WordAt(false, r, at)) == r[at..at + 4]
  {
    BytesRoundTrip(r[at], r[at + 1], r[at + 2], r[at + 3]);
  }

  lemma SizeBytes(r: Bytes, at: nat)
    requires at + 4 <= |r|
    ensures ToBytesB(Uint32(Size(false, r, at))) == r[at..at + 4]
  {
    WordIsItsLength(WordAt(false, r, at));
    WordForth(r, at);
  }

  lemma PrefixInPlace(r: Bytes, at: nat, n: nat)
    requires at + 4 + n <= |r| && ToBytesB(Uint32(n)) == r[at..at + 4]
    ensures Prefixed(r[at + 4..at + 4 + n]) == r[at..at + 4 + n]
  {
    var s := r[at + 4..at + 4 + n];
    assert |s| == n;
    assert r[at..at + 4] + s == r[at..at + 4 + n];
  }

  lemma FieldForth(r: Bytes, at: nat)
    requires |r| < INT_LIMIT && FieldFits(false, r, at)
    ensures Prefixed(Field(false, r, at)) == r[at..FieldEnd(false, r, at)]
  {
    hide ToBytesB, WordAt, Size, Uint32;
    SizeBytes(r, at);
    PrefixInPlace(r, at, Size(false, r, at));
  }

  /** The number that four bytes say, most significant byte first. */
  function BigEndian(s: Bytes, at: nat): nat
    requires at + 4 <= |s|
  {
    0x100_0000 * s[at] as int + 0x1_0000 * s[at + 1] as int + 0x100 * s[at + 2] as int + s[at + 3] as int
  }

  lemma WordIsBigEndian(s: Bytes, at: nat)
    requires at + 4 <= |s|
    ensures WordAt(false, s, at) as int == BigEndian(s, at)
  {
    hide FromByteB;
    BytesTogether(s[at], s[at + 1], s[at + 2], s[at + 3]);
  }

  lemma BytesTogether(a: bv8, b: bv8, c: bv8, d: bv8)
    ensures FromByteB(false, a, b, c, d) as int ==
            0x100_0000 * a as int + 0x1_0000 * b as int + 0x100 * c as int + d as int
  {
    hide FromByteB, IsPair, IsQuad;
    var hi := PairOf(a, b);
    var lo := PairOf(c, d);
    var w := QuadOf(hi, lo);
    FourAreTwoPairs(a, b, c, d, hi, lo, w);
  }

  predicate IsPair(p: bv16, a: bv8, b: bv8) {
    p == ((a as bv16) << 8) | (b as bv16)
  }

  predicate IsQuad(w: bv32, hi: bv16, lo: bv16) {
    w == ((hi as bv32) << 16) | (lo as bv32)
  }

  lemma PairOf(a: bv8, b: bv8) returns (p: bv16)
    ensures IsPair(p, a, b) && p as int == (a as int) * 0x100 + (b as int)
  {
    Join8(a, b);
    p := ((a as bv16) << 8) | (b as bv16);
  }

  lemma QuadOf(hi: bv16, lo: bv16) returns (w: bv32)
    ensures IsQuad(w, hi, lo) && w as int == (hi as int) * 0x1_0000 + (lo as int)
  {
    Join16(hi, lo);
    w := ((hi as bv32) << 16) | (lo as bv32);
  }

  lemma FourAreTwoPairs(a: bv8, b: bv8, c: bv8, d: bv8, hi: bv16, lo: bv16, w: bv32)
    requires IsPair(hi, a, b) && IsPair(lo, c, d) && IsQuad(w, hi, lo)
    ensures FromByteB(false, a, b, c, d) == w
  {
  }

  /** Which frames carry an event, and where it stands: those of type 0x9 and 0xB with flag 4, behind the header or, with
      flag 2, behind the sequence word. */
  lemma EventOnTheWire(r: Bytes)
    requires WellFormed(false, r)
    ensures var f, at := Decode(false, r).frame, if r[1] & 0x02 == 0x02 then 8 else 4;
            && (f.event.Some? <==> (r[1] >> 4 == 0x9 || r[1] >> 4 == 0xB) && r[1] & 0x04 == 0x04)
            && (f.event.Some? ==> at + 4 <= |r| && f.event.value as int == BigEndian(r, at))
            && (f.header.messageType == 0xB <==> r[1] >> 4 == 0xB)
  {
    hide FromByteB, BigEndian;
    FlagsOf(r[1]);
    if Decode(false, r).frame.event.Some? {
      WordIsBigEndian(r, if ParseHeader(r).HasSequence() then 8 else 4);
    }
  }

  lemma FlagsOf(b: bv8)
    ensures b & 0x0F & NEG_SEQUENCE != 0 <==> b & 0x02 == 0x02
    ensures b & 0x0F & MSG_WITH_EVENT != 0 <==> b & 0x04 == 0x04
  {
  }

  /** An error frame says its code and its text. */
  lemma ErrorFrame(r: Bytes, text: Bytes)
    requires 12 <= |r| < INT_LIMIT && r[1] >> 4 == 0xF && BigEndian(r, 8) == |text| && r[12..] == text
    ensures WellFormed(false, r)
    ensures var p := Decode(false, r);
            && p.code.Some? && p.code.value as int == BigEndian(r, 4) && p.frame.payload == text && p.frame.event == None
            && p.end == |r|
  {
    hide FromByteB, BigEndian;
    WordIsBigEndian(r, 4);
    WordIsBigEndian(r, 8);
  }

  /** The layout is injective, for frames of every message type. */
  lemma EncodeInjective(f: Frame, g: Frame)
    requires f.Valid() && g.Valid()
    ensures Encode(f) == Encode(g) ==> f == g
  {
    hide ToBytesB, FromByteB, Uint32;
    EncodedParts(f);
    EncodedParts(g);
  }

  // ---------------------------------------------------------------------------------------------------------------
  // Where plain `char` is signed

  predicate SafeWord(w: bv32) {
    var s := ToBytesB(w);
    SignSafe(s[0], s[1], s[2], s[3])
  }

  predicate SafeFrame(f: Frame) {
    && (f.sequence.Some? ==> SafeWord(f.sequence.value))
    && (f.event.Some? ==> SafeWord(f.event.value))
    && SafeWord(Uint32(|f.sessionId|))
    && SafeWord(Uint32(|f.payload|))
  }

  lemma SignedWordBack(r: Bytes, at: nat, w: bv32)
    requires at + 4 <= |r| && WordAt(false, r, at) == w
    ensures WordAt(true, r, at) == w <==> SafeWord(w)
  {
    BytesRoundTrip(r[at], r[at + 1], r[at + 2], r[at + 3]);
    SignedWordRoundTrip(w);
  }

  lemma SignedSizeBack(r: Bytes, at: nat, n: nat)
    requires at + 4 <= |r| && Size(false, r, at) == n
    ensures Size(true, r, at) == n <==> SafeWord(Uint32(n))
  {
    hide FromByteB, ToBytesB, SafeWord;
    WordIsItsLength(WordAt(false, r, at));
    WordIsItsLength(WordAt(true, r, at));
    SignedWordBack(r, at, Uint32(n));
  }

  /** With a signed `char` the round trip holds of exactly the frames whose words are all safe. */
  lemma SignedFrameRoundTrip(f: Frame)
    requires f.Valid() && f.header.IsResponse()
    ensures WellFormed(true, Encode(f)) && Decode(true, Encode(f)) == Parsed(f, None, |Encode(f)|) <==> SafeFrame(f)
  {
    hide Encode, Decode, WellFormed, WordAt, Size, Frame.Valid, Uint32, SafeWord;
    EncodedParts(f);
    EncodedSizes(f);
    var r, at := Encode(f), SessionAt(f.header);
    var payloadAt := at + 4 + |f.sessionId|;
    if f.sequence.Some? {
      SignedWordBack(r, 4, f.sequence.value);
    }
    if f.event.Some? {
      SignedWordBack(r, 4 + |Word(f.sequence)|, f.event.value);
    }
    SignedSizeBack(r, at, |f.sessionId|);
    SignedSizeBack(r, payloadAt, |f.payload|);
    if WordsRead(true, f) {
      SameWordsSameFrame(f);
    } else if WellFormed(true, r) && Decode(true, r) == Parsed(f, None, |r|) {
      SameFrameSameWords(f);
    }
  }

  lemma EncodedSizes(f: Frame)
    requires f.Valid()
    ensures var r, at := Encode(f), SessionAt(f.header);
            && WordsCanBeRead(f)
            && Size(false, r, at) == |f.sessionId| && FieldFits(false, r, at) && Field(false, r, at) == f.sessionId
            && var payloadAt := at + 4 + |f.sessionId|;
               Size(false, r, payloadAt) == |f.payload| && FieldFits(false, r, payloadAt) && Field(false, r, payloadAt) == f.payload
  {
    hide FromByteB, ToBytesB;
    EncodedParts(f);
  }

  predicate WordsCanBeRead(f: Frame) {
    && |Encode(f)| == SessionAt(f.header) + 8 + |f.sessionId| + |f.payload|
    && (f.sequence.Some? <==> f.header.HasSequence()) && (f.event.Some? <==> f.header.HasEvent())
  }

  /** Whether the words of the layout are read as what they stand for. */
  predicate WordsRead(signed: bool, f: Frame)
    requires WordsCanBeRead(f)
  {
    var r, at := Encode(f), SessionAt(f.header);
    && (f.sequence.Some? ==> WordAt(signed, r, 4) == f.sequence.value)
    && (f.event.Some? ==> WordAt(signed, r, 4 + |Word(f.sequence)|) == f.event.value)
    && Size(signed, r, at) == |f.sessionId|
    && Size(signed, r, at + 4 + |f.sessionId|) == |f.payload|
  }

  lemma SameWordsSameFrame(f: Frame)
    requires f.Valid() && f.header.IsResponse() && WordsCanBeRead(f) && WordsRead(true, f)
    ensures WellFormed(true, Encode(f)) && Decode(true, Encode(f)) == Parsed(f, None, |Encode(f)|)
  {
    hide WordAt, Size, Encode, ParseHeader, Header.HasSequence, Header.HasEvent, Header.IsResponse, Field, FieldFits, FieldEnd;
    var r, at := Encode(f), SessionAt(f.header);
    EncodedParts(f);
    EncodedSizes(f);
    SameField(r, at, |f.sessionId|);
    SameField(r, at + 4 + |f.sessionId|, |f.payload|);
  }

  lemma SameFrameSameWords(f: Frame)
    requires f.Valid() && f.header.IsResponse() && WordsCanBeRead(f)
    requires WellFormed(true, Encode(f)) && Decode(true, Encode(f)) == Parsed(f, None, |Encode(f)|)
    ensures WordsRead(true, f)
  {
    hide WordAt, Encode, ParseHeader, Header.HasSequence, Header.HasEvent, Header.IsResponse;
    EncodedHeader(f);
    var r, at := Encode(f), SessionAt(f.header);
    assert Size(true, r, at) == |Field(true, r, at)|;
    assert FieldEnd(true, r, at) == at + 4 + |f.sessionId|;
  }

  lemma EncodedHeader(f: Frame)
    requires f.Valid()
    ensures |Encode(f)| >= 4 && ParseHeader(Encode(f)) == f.header
  {
    EncodedParts(f);
  }

  lemma SameField(r: Bytes, at: nat, n: nat)
    requires at + 4 + n <= |r| && Size(false, r, at) == n == Size(true, r, at)
    ensures FieldFits(true, r, at) && FieldEnd(true, r, at) == at + 4 + n
    ensures Field(true, r, at) == Field(false, r, at)
  {
    hide Size, WordAt;
  }

  /** SessionStarted, SessionFinished, ASRResponse and ASREnded: the codes with a low byte of 0x80 or more. */
  predicate IsLost(w: bv32) {
    w == 150 || w == 152 || w == 451 || w == 459
  }

  /** With a signed `char` no four bytes at all are read as one of their codes. */
  lemma SignedCharMissesEvents(b0: bv8, b1: bv8, b2: bv8, b3: bv8)
    ensures !IsLost(FromByteB(true, b0, b1, b2, b3))
  {
  }

  lemma SignedFrameHasNoLostEvent(r: Bytes)
    requires WellFormed(true, r)
    ensures var event := Decode(true, r).frame.event; event.Some? ==> !IsLost(event.value)
  {
    hide FromByteB, IsLost;
    var eventAt := if ParseHeader(r).HasSequence() then 8 else 4;
    if Decode(true, r).frame.event.Some? {
      SignedCharMissesEvents(r[eventAt], r[eventAt + 1], r[eventAt + 2], r[eventAt + 3]);
    }
  }
}

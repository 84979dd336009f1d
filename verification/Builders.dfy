/** The frames the engine sends (src/HuoshanEngine.hpp:124-157, 242-366). */
module Builders {
  import opened Common
  import opened Words
  import opened HuoshanProto
  import opened Dialogue

  /** The empty JSON object. */
  const EMPTY_OBJECT: Bytes := [0x7B, 0x7D]

  /** `genrate_header`; the reserved byte is whatever the uninitialised struct holds. */
  function GenerateHeader(messageType: bv8, serialization: bv8, reserved: bv8): (s: Bytes)
    ensures |s| == 4
  {
    HeaderBytes(Header(1, 1, messageType, MSG_WITH_EVENT, serialization, NO_COMPRESSION, reserved))
  }

  function EventCode(m: Msg): bv32 {
    match m
    case StartConnect => START_CONNECT
    case StartSession => START_SESSION
    case SayHello => SAY_HELLO
    case TaskRequest(_) => TASK_REQUEST
    case ChatTTSText(_, _, _) => CHAT_TTS_TEXT
  }

  // The JSON texts, whose keys the serializer sorts.

  /** `{"content":` */
  const CONTENT: Bytes := [0x7B, 0x22, 0x63, 0x6F, 0x6E, 0x74, 0x65, 0x6E, 0x74, 0x22, 0x3A]
  /** `,"end":` */
  const END: Bytes := [0x2C, 0x22, 0x65, 0x6E, 0x64, 0x22, 0x3A]
  /** `,"start":` */
  const START: Bytes := [0x2C, 0x22, 0x73, 0x74, 0x61, 0x72, 0x74, 0x22, 0x3A]

  /** `true` or `false`. */
  function Bool(b: bool): Bytes {
    if b then [0x74, 0x72, 0x75, 0x65] else [0x66, 0x61, 0x6C, 0x73, 0x65]
  }

  function Flags(start: bool, end: bool): Bytes {
    END + Bool(end) + START + Bool(start) + [0x7D]
  }

  /** `None` is the exception of a text that is not UTF-8. */
  function PayloadOf(env: Env, m: Msg): Option<Bytes> {
    match m
    case StartConnect => Some(EMPTY_OBJECT)
    case StartSession => Some(env.session.prompt)
    case SayHello =>
      var q := Quoted(env, env.session.hello);
      if q.None? then None else Some(CONTENT + q.value + [0x7D])
    case TaskRequest(audio) => Some(audio)
    case ChatTTSText(text, start, end) =>
      var q := Quoted(env, text);
      if q.None? then None else Some(CONTENT + q.value + Flags(start, end))
  }

  /** The bytes of a message, appended piece by piece. */
  function Wire(env: Env, m: Msg, reserved: bv8): Option<Bytes> {
    var d := if m.TaskRequest? then GenerateHeader(AUDIO_ONLY_REQ, NO_SERIALIZATION, reserved)
             else GenerateHeader(FULL_CLIENT_REQ, JSON, reserved);
    var d := d + ToBytesB(EventCode(m));
    var d := if m.StartConnect? then d else d + ToBytesB(Uint32(|env.session.id|)) + env.session.id;
    var payload := PayloadOf(env, m);
    if payload.None? then None else Some(d + ToBytesB(Uint32(|payload.value|)) + payload.value)
  }

  function FrameOf(env: Env, m: Msg, reserved: bv8): Frame
    requires PayloadOf(env, m).Some?
  {
    var h := if m.TaskRequest? then Header(1, 1, AUDIO_ONLY_REQ, MSG_WITH_EVENT, NO_SERIALIZATION, NO_COMPRESSION, reserved)
             else Header(1, 1, FULL_CLIENT_REQ, MSG_WITH_EVENT, JSON, NO_COMPRESSION, reserved);
    Frame(h, None, Some(EventCode(m)), env.session.id, PayloadOf(env, m).value)
  }

  /** In every run each message that the engine sends has its bytes. */
  lemma {:induction false} SentHasWire(env: Env, ins: seq<Input>, reserved: bv8)
    ensures forall m | m in Run(env, ins).sent :: Wire(env, m, reserved).Some?
  {
    SentIsBuildable(env, ins);
    forall m | m in Run(env, ins).sent
      ensures Wire(env, m, reserved).Some?
    {
      assert Buildable(env, m);
    }
  }

  /** Every message but StartConnect is laid out like the server's session frames. */
  lemma WireIsEncodedFrame(env: Env, m: Msg, reserved: bv8)
    requires !m.StartConnect? && Buildable(env, m)
    ensures Wire(env, m, reserved) == Some(Encode(FrameOf(env, m, reserved)))
  {
    var f := FrameOf(env, m, reserved);
    Grouping(HeaderBytes(f.header), ToBytesB(EventCode(m)), ToBytesB(Uint32(|env.session.id|)), env.session.id,
             ToBytesB(Uint32(|f.payload|)), f.payload);
  }

  lemma Grouping(h: Bytes, e: Bytes, n: Bytes, s: Bytes, k: Bytes, p: Bytes)
    ensures h + e + n + s + k + p == h + [] + e + (n + s) + (k + p)
  {
    assert h + [] == h;
  }

  predicate Fits(env: Env, m: Msg) {
    Buildable(env, m) && 20 + |env.session.id| + |PayloadOf(env, m).value| < INT_LIMIT
  }

  /** The serializer gives different texts to different strings. */
  ghost predicate QuotedInjective(env: Env) {
    forall a, b :: Quoted(env, a).Some? && Quoted(env, a) == Quoted(env, b) ==> a == b
  }

  /** Within one session equal bytes mean equal messages. */
  lemma WireDistinguishes(env: Env, m: Msg, m': Msg, reserved: bv8, reserved': bv8)
    requires Fits(env, m) && Fits(env, m') && QuotedInjective(env)
    requires Wire(env, m, reserved) == Wire(env, m', reserved')
    ensures m == m'
  {
    hide Encode, CONTENT;
    EventInPlace(env, m, reserved);
    EventInPlace(env, m', reserved');
    assert EventCode(m) == EventCode(m');
    if !m.StartConnect? {
      WireIsEncodedFrame(env, m, reserved);
      WireIsEncodedFrame(env, m', reserved');
      FrameOfValid(env, m, reserved);
      FrameOfValid(env, m', reserved');
      EncodeInjective(FrameOf(env, m, reserved), FrameOf(env, m', reserved'));
      if m.ChatTTSText? {
        ChatTextInjective(Quoted(env, m.text).value, m.start, m.end, Quoted(env, m'.text).value, m'.start, m'.end);
      }
    }
  }

  /** Text and flags can be told from the JSON text of a reply. */
  lemma ChatTextInjective(q: Bytes, start: bool, end: bool, q': Bytes, start': bool, end': bool)
    requires CONTENT + q + Flags(start, end) == CONTENT + q' + Flags(start', end')
    ensures q == q' && start == start' && end == end'
  {
    var a, b := CONTENT + q, CONTENT + q';
    var r := a + Flags(start, end);
    assert r == b + Flags(start', end');
    FromTheEnd(a, start, end);
    FromTheEnd(b, start', end');
    assert |a| == |b| && a == r[..|a|] && b == r[..|b|];
    assert q == a[|CONTENT|..] && q' == b[|CONTENT|..];
  }

  /** The letter before the last `e` is `u` in `true` and `s` in `false`. */
  lemma FromTheEnd(a: Bytes, start: bool, end: bool)
    ensures var r := a + Flags(start, end);
            && |r| > 18
            && r[|r| - 3] == (if start then 0x75 else 0x73)
            && r[|r| - (if start then 16 else 17)] == (if end then 0x75 else 0x73)
  {
  }

  // ---------------------------------------------------------------------------------------------------------------
  // Byte by byte

  /** The first eight bytes: version and header size, message type and flags, serialization and compression, the byte
      that is not set, and the event's number. */
  lemma FirstBytes(env: Env, m: Msg, reserved: bv8)
    requires Buildable(env, m)
    ensures Wire(env, m, reserved).Some? && |Wire(env, m, reserved).value| >= 8
    ensures Wire(env, m, reserved).value[..8] ==
            match m
            case StartConnect => [0x11, 0x14, 0x10, reserved, 0, 0, 0, 1]
            case StartSession => [0x11, 0x14, 0x10, reserved, 0, 0, 0, 100]
            case SayHello => [0x11, 0x14, 0x10, reserved, 0, 0, 1, 44]
            case TaskRequest(_) => [0x11, 0x24, 0x00, reserved, 0, 0, 0, 200]
            case ChatTTSText(_, _, _) => [0x11, 0x14, 0x10, reserved, 0, 0, 1, 244]
  {
  }

  lemma LengthBytes(s: Bytes, at: nat, n: nat)
    requires at + 4 <= |s| && n < INT_LIMIT && s[at..at + 4] == ToBytesB(Uint32(n))
    ensures BigEndian(s, at) == n
  {
    hide ToBytesB, FromByteB, Uint32;
    WordBack(s[..at], Uint32(n), s[at + 4..]);
    assert s == s[..at] + s[at..at + 4] + s[at + 4..];
    LengthRoundTrip(n);
    WordIsBigEndian(s, at);
  }

  /** All bytes behind the first eight: where a session is named its id, and then the payload, each behind its length. */
  lemma LaterBytes(env: Env, m: Msg, reserved: bv8)
    requires Fits(env, m)
    ensures var w, payload := Wire(env, m, reserved).value, PayloadOf(env, m).value;
            var at := if m.StartConnect? then 8 else 12 + |env.session.id|;
            && |w| == at + 4 + |payload|
            && (!m.StartConnect? ==> BigEndian(w, 8) == |env.session.id| && w[12..at] == env.session.id)
            && BigEndian(w, at) == |payload| && w[at + 4..] == payload
  {
    hide ToBytesB, Uint32, PayloadOf, BigEndian;
    FirstBytes(env, m, reserved);
    var w, id, payload := Wire(env, m, reserved).value, env.session.id, PayloadOf(env, m).value;
    if !m.StartConnect? {
      LengthBytes(w, 8, |id|);
    }
    LengthBytes(w, if m.StartConnect? then 8 else 12 + |id|, |payload|);
  }

  predicate Spells(b: Bytes, s: string) {
    |b| == |s| && forall k | 0 <= k < |s| :: b[k] as int == s[k] as int
  }

  lemma SpellsConcat(a: Bytes, b: Bytes, s: string, t: string)
    requires Spells(a, s) && Spells(b, t)
    ensures Spells(a + b, s + t)
  {
  }

  /** The payloads, letter by letter; only the texts in them are left to the serializer. */
  lemma PayloadSpelled(env: Env, m: Msg)
    requires Buildable(env, m)
    ensures var p := PayloadOf(env, m).value;
            match m
            case StartConnect => Spells(p, "{}")
            case StartSession => p == env.session.prompt
            case TaskRequest(audio) => p == audio
            case SayHello =>
              var q := Quoted(env, env.session.hello).value;
              |p| == 12 + |q| && Spells(p[..11], "{\"content\":") && p[11..11 + |q|] == q && Spells(p[11 + |q|..], "}")
              && (env.session.hello == [] ==> Spells(q, "\"\""))
            case ChatTTSText(text, start, end) =>
              var q := Quoted(env, text).value;
              && |p| >= 11 + |q| && Spells(p[..11], "{\"content\":") && p[11..11 + |q|] == q
              && Spells(p[11 + |q|..], ",\"end\":" + (if end then "true" else "false") +
                                       ",\"start\":" + (if start then "true" else "false") + "}")
              && (text == [] ==> Spells(q, "\"\""))
  {
    match m
    case SayHello =>
      var q := Quoted(env, env.session.hello).value;
      ContentSpelled(q, [0x7D]);
    case ChatTTSText(text, start, end) =>
      var q := Quoted(env, text).value;
      ContentSpelled(q, Flags(start, end));
      FlagsSpelled(start, end);
    case _ =>
  }

  lemma ContentSpelled(q: Bytes, tail: Bytes)
    ensures var p := CONTENT + q + tail;
            Spells(p[..11], "{\"content\":") && p[11..11 + |q|] == q && p[11 + |q|..] == tail
  {
    assert (CONTENT + q + tail)[..11] == CONTENT;
  }

  lemma WordsSpelled(b: bool)
    ensures Spells(END, ",\"end\":") && Spells(START, ",\"start\":") && Spells([0x7D], "}")
    ensures Spells(Bool(b), if b then "true" else "false")
  {
  }

  lemma FlagsSpelled(start: bool, end: bool)
    ensures Spells(Flags(start, end), ",\"end\":" + (if end then "true" else "false") +
                                      ",\"start\":" + (if start then "true" else "false") + "}")
  {
    hide Spells, END, START, Bool;
    var e, s := if end then "true" else "false", if start then "true" else "false";
    WordsSpelled(start);
    WordsSpelled(end);
    SpellsConcat(END, Bool(end), ",\"end\":", e);
    SpellsConcat(END + Bool(end), START, ",\"end\":" + e, ",\"start\":");
    SpellsConcat(END + Bool(end) + START, Bool(start), ",\"end\":" + e + ",\"start\":", s);
    SpellsConcat(END + Bool(end) + START + Bool(start), [0x7D], ",\"end\":" + e + ",\"start\":" + s, "}");
  }

  lemma FrameOfValid(env: Env, m: Msg, reserved: bv8)
    requires Fits(env, m)
    ensures FrameOf(env, m, reserved).Valid()
  {
  }

  lemma EventInPlace(env: Env, m: Msg, reserved: bv8)
    requires Buildable(env, m)
    ensures Wire(env, m, reserved).Some? && |Wire(env, m, reserved).value| >= 8
    ensures WordAt(false, Wire(env, m, reserved).value, 4) == EventCode(m)
  {
    var w := Wire(env, m, reserved).value;
    var h := if m.TaskRequest? then GenerateHeader(AUDIO_ONLY_REQ, NO_SERIALIZATION, reserved)
             else GenerateHeader(FULL_CLIENT_REQ, JSON, reserved);
    assert w == h + ToBytesB(EventCode(m)) + w[8..];
    WordBack(h, EventCode(m), w[8..]);
  }
}

/** The dialogue machine of src/HuoshanEngine.hpp:504-675 as a transition system, and what holds over all its runs.
    One input is one callback, which the model takes to run without interruption. */
module Dialogue {
  import opened Common
  import opened Words
  import opened HuoshanProto
  import opened LocalAi

  /** What `json["tts_type"]` of a payload says; parsing the payload can throw. */
  datatype TtsAnswer = IsChatTtsText | IsOtherTts | TtsThrows

  datatype Session = Session(id: Bytes, prompt: Bytes, hello: Bytes)

  /** What the engine is given, and the parts it relies on without implementing them: JSON, regular expressions, and
      the sample rate converter, whose output for a payload depends on the payloads it has converted before.  `dump` is
      the JSON text of a non-empty string; it throws where that is not UTF-8. */
  datatype Env = Env(session: Session, tts: Bytes -> TtsAnswer, originText: Bytes -> Option<Bytes>,
                     dump: Bytes -> Option<Bytes>, regex: Regex, actions: seq<LocalAction>,
                     convert: (seq<Bytes>, Bytes) -> Bytes)

  datatype Msg =
    | StartConnect
    | StartSession
    | SayHello
    | TaskRequest(audio: Bytes)
    | ChatTTSText(text: Bytes, start: bool, end: bool)

  /** The JSON text of a string. */
  function Quoted(env: Env, text: Bytes): Option<Bytes> {
    if text == [] then Some([0x22, 0x22]) else env.dump(text)
  }

  /** Building the message does not throw. */
  predicate Buildable(env: Env, m: Msg) {
    match m
    case SayHello => Quoted(env, env.session.hello).Some?
    case ChatTTSText(text, _, _) => Quoted(env, text).Some?
    case _ => true
  }

  /** `lcm` is the answer to a local command, `None` when it failed; `rand` is the next random number.  Both matter
      only where the message makes the engine ask for them. */
  datatype Input =
    | Opened
    | Closed
    | Failed
    | Message(parsed: Parsed, lcm: Option<Bytes>, rand: nat)
    | Microphone(audio: Bytes)
    | Playback(n: nat)

  datatype State = State(isReady: bool, disabledRemote: bool, asrText: Bytes, apool: Bytes, converted: seq<Bytes>,
                         sent: seq<Msg>, played: Bytes)

  const INITIAL := State(false, false, [], [], [], [], [])

  // ---------------------------------------------------------------------------------------------------------------
  // Transitions

  /** Reading the TTS type happens, and can throw, only while muted. */
  predicate ParseThrows(env: Env, disabled: bool, f: Frame) {
    f.event == Some(TTS_SENTENCE_START) && disabled && env.tts(f.payload).TtsThrows?
  }

  /** Building the greeting throws, and the exception leaves the callback. */
  predicate HelloThrows(env: Env, f: Frame) {
    f.event == Some(SESSION_STARTED) && !Buildable(env, SayHello)
  }

  function ReadyAfterParse(ready: bool, f: Frame): bool {
    if f.event == Some(SESSION_STARTED) then true
    else if f.event == Some(SESSION_FINISHED) then false
    else ready
  }

  function DisabledAfterParse(env: Env, disabled: bool, f: Frame): bool {
    disabled && !(f.event == Some(TTS_SENTENCE_START) && env.tts(f.payload).IsChatTtsText?)
  }

  function AfterParse(env: Env, s: State, f: Frame): State {
    s.(isReady := ReadyAfterParse(s.isReady, f), disabledRemote := DisabledAfterParse(env, s.disabledRemote, f))
  }

  /** The action that the recognised text asks for; `None` when finding it throws. */
  function Wanted(env: Env, asrText: Bytes): Option<LocalAction> {
    match env.originText(asrText)
    case None => None
    case Some(text) => ActionFor(env.regex, env.actions, text)
  }

  /** A named action was found. */
  predicate HasAction(env: Env, asrText: Bytes) {
    var a := Wanted(env, asrText);
    a.Some? && a.value.name != []
  }

  function RandReply(replies: seq<Bytes>, rand: nat): Bytes {
    if replies == [] then [] else replies[rand % |replies|]
  }

  function ReplyText(a: LocalAction, lcm: Option<Bytes>, rand: nat): Bytes {
    match lcm
    case Some(ret) => if ret != [] then ret else RandReply(a.replysp, rand)
    case None => RandReply(a.replysn, rand)
  }

  /** What is said in answer to an ASREnded, if anything: a reply that cannot be built throws, and is dropped. */
  function ReplyOf(env: Env, asrText: Bytes, lcm: Option<Bytes>, rand: nat): Option<Bytes> {
    if !HasAction(env, asrText) then None else
    var text := ReplyText(Wanted(env, asrText).value, lcm, rand);
    if Quoted(env, text).Some? then Some(text) else None
  }

  function Bracket(text: Bytes): seq<Msg> {
    [ChatTTSText(text, true, false), ChatTTSText([], false, true)]
  }

  function Reply(s: State, reply: Option<Bytes>): State {
    if reply.None? then s else s.(sent := s.sent + Bracket(reply.value), disabledRemote := true)
  }

  function Download(env: Env, s: State, payload: Bytes): State {
    if s.disabledRemote || payload == [] then s else
    s.(apool := s.apool + env.convert(s.converted, payload), converted := s.converted + [payload])
  }

  /** The event-driven part of one message, in the code's order. */
  function React(env: Env, s1: State, f: Frame, lcm: Option<Bytes>, rand: nat): State {
    var s2 := if f.event == Some(CONNECTION_STARTED) then s1.(sent := s1.sent + [StartSession]) else s1;
    var s3 := if f.event == Some(SESSION_STARTED) then s2.(isReady := true, sent := s2.sent + [SayHello]) else s2;
    var s4 := if f.event == Some(ASR_RESPONSE) then s3.(asrText := f.payload) else s3;
    var s5 := if f.event == Some(ASR_ENDED) then Reply(s4, ReplyOf(env, s4.asrText, lcm, rand)) else s4;
    if f.event == Some(TTS_ENDED) then s5.(disabledRemote := false) else s5
  }

  function Receive(env: Env, s: State, f: Frame, lcm: Option<Bytes>, rand: nat): State {
    var s1 := AfterParse(env, s, f);
    if ParseThrows(env, s.disabledRemote, f) || HelloThrows(env, f) then s1 else
    var s2 := React(env, s1, f, lcm, rand);
    if f.header.messageType == AUDIO_ONLY_RSP then Download(env, s2, f.payload) else s2
  }

  function Step(env: Env, s: State, i: Input): State {
    match i
    case Opened => s.(sent := s.sent + [StartConnect])
    case Closed => s.(isReady := false)
    case Failed => s.(isReady := false)
    case Message(p, lcm, rand) => Receive(env, s, p.frame, lcm, rand)
    case Microphone(audio) => if s.isReady then s.(sent := s.sent + [TaskRequest(audio)]) else s
    case Playback(n) =>
      var k := Min(n, |s.apool|);
      s.(apool := s.apool[k..], played := s.played + s.apool[..k])
  }

  function Run(env: Env, ins: seq<Input>): State {
    if ins == [] then INITIAL else Step(env, Run(env, ins[..|ins| - 1]), ins[|ins| - 1])
  }

  // ---------------------------------------------------------------------------------------------------------------
  // The session gate.  From here on the properties name events by their numbers: 50 ConnectionStarted, 150
  // SessionStarted, 152 SessionFinished, 350 TTSSentenceStart, 359 TTSEnded, 451 ASRResponse, 459 ASREnded.

  function EventOf(i: Input): Option<bv32> {
    if i.Message? then i.parsed.frame.event else None
  }

  predicate Begins(i: Input) {
    EventOf(i) == Some(150)
  }

  predicate Ends(i: Input) {
    EventOf(i) == Some(152) || i.Closed? || i.Failed?
  }

  /** A session has started, and nothing has ended it since. */
  ghost predicate SessionOpen(ins: seq<Input>) {
    exists j | 0 <= j < |ins| :: Begins(ins[j]) && forall k | j < k < |ins| :: !Ends(ins[k])
  }

  lemma SessionOpenSnoc(ins: seq<Input>, i: Input)
    ensures SessionOpen(ins + [i]) <==> Begins(i) || (SessionOpen(ins) && !Ends(i))
  {
    var all := ins + [i];
    if Begins(i) {
      assert Begins(all[|ins|]);
    } else if SessionOpen(ins) && !Ends(i) {
      var j :| 0 <= j < |ins| && Begins(ins[j]) && forall k | j < k < |ins| :: !Ends(ins[k]);
      assert Begins(all[j]);
    }
    if SessionOpen(all) && !Begins(i) {
      var j :| 0 <= j < |all| && Begins(all[j]) && forall k | j < k < |all| :: !Ends(all[k]);
      assert !Ends(all[|ins|]) && Begins(ins[j]);
      forall k | j < k < |ins|
        ensures !Ends(ins[k])
      {
        assert !Ends(all[k]);
      }
    }
  }

  lemma {:induction false} ReadyIffSessionOpen(env: Env, ins: seq<Input>)
    ensures Run(env, ins).isReady <==> SessionOpen(ins)
  {
    if ins != [] {
      hide Step, Begins, Ends, SessionOpen;
      var n := |ins| - 1;
      assert ins == ins[..n] + [ins[n]];
      ReadyIffSessionOpen(env, ins[..n]);
      SessionOpenSnoc(ins[..n], ins[n]);
      StepReady(env, Run(env, ins[..n]), ins[n]);
    }
  }

  lemma StepReady(env: Env, s: State, i: Input)
    ensures Step(env, s, i).isReady <==> Begins(i) || (s.isReady && !Ends(i))
  {
    hide HasAction, RandReply, ReplyText, Buildable;
  }

  // ---------------------------------------------------------------------------------------------------------------
  // Muting

  /** The text of the most recent recognition. */
  function LastAsr(ins: seq<Input>): Bytes {
    if ins == [] then [] else
    var i := ins[|ins| - 1];
    if EventOf(i) == Some(451) then i.parsed.frame.payload else LastAsr(ins[..|ins| - 1])
  }

  lemma {:induction false} AsrTextIsLast(env: Env, ins: seq<Input>)
    ensures Run(env, ins).asrText == LastAsr(ins)
  {
    if ins != [] {
      AsrTextIsLast(env, ins[..|ins| - 1]);
    }
  }

  /** Input `j` is an ASREnded for which a named action was found, with a reply that can be built. */
  ghost predicate Mutes(env: Env, ins: seq<Input>, j: nat)
    requires j < |ins|
  {
    EventOf(ins[j]) == Some(459) && ReplyOf(env, LastAsr(ins[..j]), ins[j].lcm, ins[j].rand).Some?
  }

  predicate Unmutes(env: Env, i: Input) {
    || EventOf(i) == Some(359)
    || (EventOf(i) == Some(350) && env.tts(i.parsed.frame.payload).IsChatTtsText?)
  }

  /** A local reply has been given, and nothing has ended its predominance since. */
  ghost predicate Muted(env: Env, ins: seq<Input>) {
    exists j | 0 <= j < |ins| :: Mutes(env, ins, j) && forall k | j < k < |ins| :: !Unmutes(env, ins[k])
  }

  lemma MutedSnoc(env: Env, ins: seq<Input>, i: Input)
    ensures Muted(env, ins + [i]) <==> Mutes(env, ins + [i], |ins|) || (Muted(env, ins) && !Unmutes(env, i))
  {
    var all := ins + [i];
    forall j | 0 <= j < |ins|
      ensures Mutes(env, all, j) <==> Mutes(env, ins, j)
    {
      assert all[..j] == ins[..j];
    }
    if Muted(env, ins) && !Unmutes(env, i) {
      var j :| 0 <= j < |ins| && Mutes(env, ins, j) && forall k | j < k < |ins| :: !Unmutes(env, ins[k]);
      assert Mutes(env, all, j);
    }
    if Muted(env, all) && !Mutes(env, all, |ins|) {
      var j :| 0 <= j < |all| && Mutes(env, all, j) && forall k | j < k < |all| :: !Unmutes(env, all[k]);
      assert !Unmutes(env, all[|ins|]) && Mutes(env, ins, j);
      forall k | j < k < |ins|
        ensures !Unmutes(env, ins[k])
      {
        assert !Unmutes(env, all[k]);
      }
    }
  }

  lemma {:induction false} DisabledIffMuted(env: Env, ins: seq<Input>)
    ensures Run(env, ins).disabledRemote <==> Muted(env, ins)
  {
    if ins != [] {
      hide Step, Unmutes, Muted;
      var n := |ins| - 1;
      assert ins == ins[..n] + [ins[n]];
      DisabledIffMuted(env, ins[..n]);
      AsrTextIsLast(env, ins[..n]);
      MutedSnoc(env, ins[..n], ins[n]);
      StepDisabled(env, Run(env, ins[..n]), ins[n]);
    }
  }

  lemma StepDisabled(env: Env, s: State, i: Input)
    ensures Step(env, s, i).disabledRemote <==>
            (EventOf(i) == Some(ASR_ENDED) && ReplyTo(env, s, i).Some?) || (s.disabledRemote && !Unmutes(env, i))
  {
    hide ReplyOf, Buildable;
  }

  // ---------------------------------------------------------------------------------------------------------------
  // Audio to the speaker

  /** The payload of an input, if it is audio and goes to the speaker. */
  function AudioIn(env: Env, i: Input, disabled: bool): (r: seq<Bytes>)
    ensures |r| <= 1
  {
    if i.Message? && i.parsed.frame.header.messageType == 0xB && i.parsed.frame.payload != [] && !disabled
       && !HelloThrows(env, i.parsed.frame)
    then [i.parsed.frame.payload] else []
  }

  /** The payload of the last input, if it is audio that arrives while not muted; a message that mutes or unmutes does
      so before its own audio is looked at. */
  ghost function AudioOfLast(env: Env, ins: seq<Input>): seq<Bytes>
    requires ins != []
  {
    AudioIn(env, ins[|ins| - 1], Muted(env, ins))
  }

  ghost function UnmutedAudio(env: Env, ins: seq<Input>): seq<Bytes> {
    if ins == [] then [] else UnmutedAudio(env, ins[..|ins| - 1]) + AudioOfLast(env, ins)
  }

  function ConvertAll(env: Env, payloads: seq<Bytes>): Bytes {
    if payloads == [] then [] else
    var n := |payloads| - 1;
    ConvertAll(env, payloads[..n]) + env.convert(payloads[..n], payloads[n])
  }

  /** What has been played, and then what is queued for playing, is exactly the conversion, in order, of the audio
      that came in while not muted. */
  lemma {:induction false} SpeakerGetsUnmutedAudio(env: Env, ins: seq<Input>)
    ensures Run(env, ins).converted == UnmutedAudio(env, ins)
    ensures Run(env, ins).played + Run(env, ins).apool == ConvertAll(env, UnmutedAudio(env, ins))
  {
    hide Step, Muted;
    if ins != [] {
      var n := |ins| - 1;
      var s, i, s' := Run(env, ins[..n]), ins[n], Run(env, ins);
      SpeakerGetsUnmutedAudio(env, ins[..n]);
      DisabledIffMuted(env, ins);
      StepAudio(env, s, i);
      var extra := AudioOfLast(env, ins);
      ConvertMore(env, s.converted, extra);
      assert s'.converted == s.converted + extra;
      assert s'.played + s'.apool == (s.played + s.apool) + ConvertedLast(env, s.converted, extra);
    }
  }

  function ConvertedLast(env: Env, before: seq<Bytes>, extra: seq<Bytes>): Bytes {
    if |extra| == 1 then env.convert(before, extra[0]) else []
  }

  lemma ConvertMore(env: Env, before: seq<Bytes>, extra: seq<Bytes>)
    requires |extra| <= 1
    ensures ConvertAll(env, before + extra) == ConvertAll(env, before) + ConvertedLast(env, before, extra)
  {
    if |extra| == 1 {
      assert (before + extra)[..|before|] == before;
    } else {
      assert before + extra == before;
    }
  }

  /** What one step does to the audio, in terms of whether it leaves the engine muted. */
  lemma StepAudio(env: Env, s: State, i: Input)
    ensures var s' := Step(env, s, i);
            var extra := AudioIn(env, i, s'.disabledRemote);
            && s'.converted == s.converted + extra
            && s'.played + s'.apool == (s.played + s.apool) + ConvertedLast(env, s.converted, extra)
  {
    if i.Message? {
      ReactKeepsAudio(env, AfterParse(env, s, i.parsed.frame), i.parsed.frame, i.lcm, i.rand);
      var payload := i.parsed.frame.payload;
      assert s.played + (s.apool + env.convert(s.converted, payload))
          == (s.played + s.apool) + env.convert(s.converted, payload);
    }
  }

  lemma ReactKeepsAudio(env: Env, s1: State, f: Frame, lcm: Option<Bytes>, rand: nat)
    ensures var s2 := React(env, s1, f, lcm, rand);
            s2.converted == s1.converted && s2.played == s1.played && s2.apool == s1.apool
  {
  }

  /** How much has been played: each playback takes as much as it asks for, or all there is. */
  ghost function PlayedLength(env: Env, ins: seq<Input>): nat {
    if ins == [] then 0 else
    var front, i := ins[..|ins| - 1], ins[|ins| - 1];
    var before := PlayedLength(env, front);
    if !i.Playback? then before
    else if before + i.n <= |ConvertAll(env, UnmutedAudio(env, front))| then before + i.n
    else |ConvertAll(env, UnmutedAudio(env, front))|
  }

  /** In every run exactly the first part of the unmuted audio has been played that the playbacks asked for while it
      was there. */
  lemma {:induction false} PlaybackTakesAllItCan(env: Env, ins: seq<Input>)
    ensures PlayedLength(env, ins) <= |ConvertAll(env, UnmutedAudio(env, ins))|
    ensures Run(env, ins).played == ConvertAll(env, UnmutedAudio(env, ins))[..PlayedLength(env, ins)]
  {
    hide Step, ConvertAll, UnmutedAudio;
    SpeakerGetsUnmutedAudio(env, ins);
    if ins == [] {
      assert Run(env, ins).played == [];
    } else {
      var n := |ins| - 1;
      PlaybackTakesAllItCan(env, ins[..n]);
      SpeakerGetsUnmutedAudio(env, ins[..n]);
      StepPlays(env, Run(env, ins[..n]), ins[n]);
      assert |Run(env, ins).played| == PlayedLength(env, ins);
      assert Run(env, ins).played <= ConvertAll(env, UnmutedAudio(env, ins));
    }
  }

  lemma StepPlays(env: Env, s: State, i: Input)
    ensures |Step(env, s, i).played| == |s.played| + if i.Playback? then Min(i.n, |s.apool|) else 0
  {
    if i.Message? {
      ReactKeepsAudio(env, AfterParse(env, s, i.parsed.frame), i.parsed.frame, i.lcm, i.rand);
    }
  }

  // ---------------------------------------------------------------------------------------------------------------
  // What is sent

  /** What the last input calls for. */
  ghost function DueForLast(env: Env, ins: seq<Input>): seq<Msg>
    requires ins != []
  {
    var n := |ins| - 1;
    var i := ins[n];
    if i.Opened? then [StartConnect]
    else if i.Microphone? then (if SessionOpen(ins[..n]) then [TaskRequest(i.audio)] else [])
    else if EventOf(i) == Some(50) then [StartSession]
    else if Begins(i) then (if env.session.hello == [] || env.dump(env.session.hello).Some? then [SayHello] else [])
    else if Mutes(env, ins, n) then Bracket(ReplyText(Wanted(env, LastAsr(ins[..n])).value, i.lcm, i.rand))
    else []
  }

  ghost function Due(env: Env, ins: seq<Input>): seq<Msg> {
    if ins == [] then [] else Due(env, ins[..|ins| - 1]) + DueForLast(env, ins)
  }

  /** In every run exactly the messages are sent, and in the order, that the inputs call for: a StartConnect for each
      opening, a StartSession for each ConnectionStarted, a SayHello for each SessionStarted, a TaskRequest for each
      microphone callback in an open session, and a bracketed pair of ChatTTSText for each ASREnded with a named
      action; a greeting or reply that cannot be built is left out. */
  lemma {:induction false} SentIsDue(env: Env, ins: seq<Input>)
    ensures Run(env, ins).sent == Due(env, ins)
  {
    if ins != [] {
      hide Step, Emitted, DueForLast;
      var n := |ins| - 1;
      SentIsDue(env, ins[..n]);
      StepEmits(env, Run(env, ins[..n]), ins[n]);
      EmittedIsDue(env, ins);
    }
  }

  /** What one step sends, in terms of the state. */
  function Emitted(env: Env, s: State, i: Input): seq<Msg> {
    if i.Opened? then [StartConnect]
    else if i.Microphone? then (if s.isReady then [TaskRequest(i.audio)] else [])
    else if EventOf(i) == Some(CONNECTION_STARTED) then [StartSession]
    else if EventOf(i) == Some(SESSION_STARTED) then (if Buildable(env, SayHello) then [SayHello] else [])
    else if EventOf(i) == Some(ASR_ENDED) && ReplyTo(env, s, i).Some? then Bracket(ReplyTo(env, s, i).value)
    else []
  }

  function ReplyTo(env: Env, s: State, i: Input): Option<Bytes> {
    if i.Message? then ReplyOf(env, s.asrText, i.lcm, i.rand) else None
  }

  lemma EmittedIsDue(env: Env, ins: seq<Input>)
    requires ins != []
    ensures Emitted(env, Run(env, ins[..|ins| - 1]), ins[|ins| - 1]) == DueForLast(env, ins)
  {
    hide Step, HasAction, Wanted, ReplyText, SessionOpen;
    ReadyIffSessionOpen(env, ins[..|ins| - 1]);
    AsrTextIsLast(env, ins[..|ins| - 1]);
  }

  lemma StepEmits(env: Env, s: State, i: Input)
    ensures Step(env, s, i).sent == s.sent + Emitted(env, s, i)
  {
    hide ReplyOf, Buildable;
    if i.Message? {
      var s1 := AfterParse(env, s, i.parsed.frame);
      assert s1.sent == s.sent && s1.asrText == s.asrText;
    }
  }

  /** Whatever is sent could be built. */
  lemma {:induction false} SentIsBuildable(env: Env, ins: seq<Input>)
    ensures forall m | m in Run(env, ins).sent :: Buildable(env, m)
  {
    if ins != [] {
      hide Step, Emitted;
      var n := |ins| - 1;
      SentIsBuildable(env, ins[..n]);
      StepEmits(env, Run(env, ins[..n]), ins[n]);
      EmittedIsBuildable(env, Run(env, ins[..n]), ins[n]);
    }
  }

  lemma EmittedIsBuildable(env: Env, s: State, i: Input)
    ensures forall m | m in Emitted(env, s, i) :: Buildable(env, m)
  {
    hide HasAction, Wanted, ReplyText;
  }

  ghost function NumberOfReplies(env: Env, ins: seq<Input>): nat {
    if ins == [] then 0 else
    NumberOfReplies(env, ins[..|ins| - 1]) + if Mutes(env, ins, |ins| - 1) then 1 else 0
  }

  /** How many replies begin in what is sent. */
  function Openings(sent: seq<Msg>): nat {
    if sent == [] then 0 else
    var m := sent[|sent| - 1];
    Openings(sent[..|sent| - 1]) + if m.ChatTTSText? && m.start then 1 else 0
  }

  /** A reply's first message is directly followed by its second, which occurs nowhere else. */
  predicate InBracket(sent: seq<Msg>, i: nat)
    requires i < |sent|
  {
    sent[i].ChatTTSText? ==>
      if sent[i].start then !sent[i].end && i + 1 < |sent| && sent[i + 1] == ChatTTSText([], false, true)
      else sent[i] == ChatTTSText([], false, true) && i > 0 && sent[i - 1].ChatTTSText? && sent[i - 1].start
  }

  predicate Bracketed(sent: seq<Msg>) {
    forall i | 0 <= i < |sent| :: InBracket(sent, i)
  }

  lemma BracketedSnoc(sent: seq<Msg>, more: seq<Msg>)
    requires Bracketed(sent) && Bracketed(more)
    ensures Bracketed(sent + more)
  {
    forall i | 0 <= i < |sent + more|
      ensures InBracket(sent + more, i)
    {
      if i < |sent| {
        assert InBracket(sent, i);
      } else {
        assert InBracket(more, i - |sent|);
      }
    }
  }

  lemma {:induction false} OpeningsAppend(sent: seq<Msg>, more: seq<Msg>)
    ensures Openings(sent + more) == Openings(sent) + Openings(more)
  {
    if more == [] {
      assert sent + more == sent;
    } else {
      var n := |more| - 1;
      OpeningsAppend(sent, more[..n]);
      assert (sent + more)[..|sent| + n] == sent + more[..n];
    }
  }

  lemma OpeningsOfBracket(text: Bytes)
    ensures Openings(Bracket(text)) == 1 && Bracketed(Bracket(text))
  {
    assert Bracket(text)[..1] == [ChatTTSText(text, true, false)];
    assert Openings([ChatTTSText(text, true, false)]) == 1;
  }

  lemma OpeningsForLast(env: Env, ins: seq<Input>)
    requires ins != []
    ensures Bracketed(DueForLast(env, ins))
    ensures Openings(DueForLast(env, ins)) == if Mutes(env, ins, |ins| - 1) then 1 else 0
  {
    hide Bracket, ReplyText, SessionOpen, Buildable;
    if Mutes(env, ins, |ins| - 1) {
      var n := |ins| - 1;
      OpeningsOfBracket(ReplyText(Wanted(env, LastAsr(ins[..n])).value, ins[n].lcm, ins[n].rand));
    }
  }

  /** The replies always form complete brackets that nothing comes between, as many as there were ASREnded with a named
      action and a reply that can be built. */
  lemma {:induction false} RepliesAreBracketed(env: Env, ins: seq<Input>)
    ensures Bracketed(Run(env, ins).sent) && Openings(Run(env, ins).sent) == NumberOfReplies(env, ins)
  {
    SentIsDue(env, ins);
    if ins != [] {
      hide Bracketed, Openings, DueForLast, Mutes, Step;
      var n := |ins| - 1;
      RepliesAreBracketed(env, ins[..n]);
      SentIsDue(env, ins[..n]);
      OpeningsForLast(env, ins);
      BracketedSnoc(Due(env, ins[..n]), DueForLast(env, ins));
      OpeningsAppend(Due(env, ins[..n]), DueForLast(env, ins));
    }
  }

  // ---------------------------------------------------------------------------------------------------------------
  // What a reply says, from the inputs alone

  /** `heard` is what was recognised last before input `n`: the payload of the latest ASRResponse, event 451. */
  ghost predicate Heard(ins: seq<Input>, n: nat, heard: Bytes)
    requires n <= |ins|
  {
    || (heard == [] && forall k | 0 <= k < n :: EventOf(ins[k]) != Some(451))
    || (exists j | 0 <= j < n ::
          && EventOf(ins[j]) == Some(451) && ins[j].parsed.frame.payload == heard
          && forall k | j < k < n :: EventOf(ins[k]) != Some(451))
  }

  lemma {:induction false} HeardIsLastAsr(ins: seq<Input>, n: nat, heard: Bytes)
    requires n <= |ins| && Heard(ins, n, heard)
    ensures LastAsr(ins[..n]) == heard
  {
    if n > 0 {
      assert ins[..n][..n - 1] == ins[..n - 1];
      if EventOf(ins[n - 1]) != Some(451) {
        HeardIsLastAsr(ins, n - 1, heard);
      }
    }
  }

  /** `said` is what has to be said in answer to `heard`: the recognised text asks for the named action `i`; a command
      that succeeds speaks for itself or, with an empty answer, through the action's positive replies, a command that
      fails through its negative ones; an empty list of replies leaves nothing to say.  It has a JSON text. */
  ghost predicate CallsFor(env: Env, heard: Bytes, lcm: Option<Bytes>, rand: nat, i: nat, said: Bytes) {
    && env.originText(heard).Some? && AsksFor(env.regex, env.actions, env.originText(heard).value, i)
    && env.actions[i].name != []
    && (said == [] || env.dump(said).Some?)
    && var a := env.actions[i];
       && (lcm.Some? && lcm.value != [] ==> said == lcm.value)
       && (lcm == Some([]) ==> said == if a.replysp == [] then [] else a.replysp[rand % |a.replysp|])
       && (lcm == None ==> said == if a.replysn == [] then [] else a.replysn[rand % |a.replysn|])
  }

  lemma CallsForIsReply(env: Env, heard: Bytes, lcm: Option<Bytes>, rand: nat, i: nat, said: Bytes)
    requires CallsFor(env, heard, lcm, rand, i, said)
    ensures ReplyOf(env, heard, lcm, rand) == Some(said)
  {
    AskedForIsFound(env.regex, env.actions, env.originText(heard).value, i);
  }

  lemma ReplyIsCalledFor(env: Env, heard: Bytes, lcm: Option<Bytes>, rand: nat) returns (i: nat)
    requires ReplyOf(env, heard, lcm, rand).Some?
    ensures CallsFor(env, heard, lcm, rand, i, ReplyOf(env, heard, lcm, rand).value)
  {
    i := FoundIsAskedFor(env.regex, env.actions, env.originText(heard).value);
  }

  lemma {:induction false} SentGrows(env: Env, ins: seq<Input>, n: nat)
    requires n <= |ins|
    ensures Run(env, ins[..n]).sent <= Run(env, ins).sent
  {
    if n == |ins| {
      assert ins[..n] == ins;
    } else {
      hide Step, Emitted;
      var m := |ins| - 1;
      assert ins[..m][..n] == ins[..n];
      SentGrows(env, ins[..m], n);
      StepEmits(env, Run(env, ins[..m]), ins[m]);
    }
  }

  lemma AfterAsrEnded(env: Env, ins: seq<Input>, n: nat, heard: Bytes)
    requires n < |ins| && EventOf(ins[n]) == Some(459) && Heard(ins, n, heard)
    ensures var s, s', reply := Run(env, ins[..n]), Run(env, ins[..n + 1]), ReplyOf(env, heard, ins[n].lcm, ins[n].rand);
            && s'.sent == s.sent + (if reply.Some? then [ChatTTSText(reply.value, true, false), ChatTTSText([], false, true)] else [])
            && (s'.disabledRemote <==> reply.Some? || s.disabledRemote)
  {
    hide Step, ReplyOf;
    assert ins[..n + 1][..n] == ins[..n];
    HeardIsLastAsr(ins, n, heard);
    AsrTextIsLast(env, ins[..n]);
    StepEmits(env, Run(env, ins[..n]), ins[n]);
    StepDisabled(env, Run(env, ins[..n]), ins[n]);
  }

  /** In every run, each ASREnded, event 459, is answered at once by what it calls for. */
  lemma ReplySays(env: Env, ins: seq<Input>, n: nat, heard: Bytes, i: nat, said: Bytes)
    requires n < |ins| && EventOf(ins[n]) == Some(459) && Heard(ins, n, heard)
    requires CallsFor(env, heard, ins[n].lcm, ins[n].rand, i, said)
    ensures Run(env, ins[..n]).sent + [ChatTTSText(said, true, false), ChatTTSText([], false, true)] <= Run(env, ins).sent
    ensures Run(env, ins[..n + 1]).disabledRemote
  {
    hide CallsFor;
    CallsForIsReply(env, heard, ins[n].lcm, ins[n].rand, i, said);
    AfterAsrEnded(env, ins, n, heard);
    SentGrows(env, ins, n + 1);
  }

  /** An ASREnded that calls for nothing is answered by nothing. */
  lemma SilentOtherwise(env: Env, ins: seq<Input>, n: nat, heard: Bytes)
    requires n < |ins| && EventOf(ins[n]) == Some(459) && Heard(ins, n, heard)
    requires forall i: nat, said :: !CallsFor(env, heard, ins[n].lcm, ins[n].rand, i, said)
    ensures Run(env, ins[..n + 1]).sent == Run(env, ins[..n]).sent
    ensures Run(env, ins[..n + 1]).disabledRemote == Run(env, ins[..n]).disabledRemote
  {
    hide CallsFor;
    AfterAsrEnded(env, ins, n, heard);
    if ReplyOf(env, heard, ins[n].lcm, ins[n].rand).Some? {
      var i := ReplyIsCalledFor(env, heard, ins[n].lcm, ins[n].rand);
      assert false;
    }
  }

  ghost predicate NoneLost(ins: seq<Input>) {
    forall i | i in ins && EventOf(i).Some? :: !IsLost(EventOf(i).value)
  }

  /** Without the events whose codes a signed `char` loses, there is no session, no speech and no reply: only the
      connection is set up, again and again. */
  lemma {:induction false} OnlyConnects(env: Env, ins: seq<Input>)
    requires NoneLost(ins)
    ensures var s := Run(env, ins);
            && !s.isReady && !s.disabledRemote && s.asrText == []
            && forall m | m in s.sent :: m.StartConnect? || m.StartSession?
  {
    ReadyIffSessionOpen(env, ins);
    DisabledIffMuted(env, ins);
    assert forall i | i in ins :: !Begins(i) && EventOf(i) != Some(459);
    if ins != [] {
      hide Step;
      var n := |ins| - 1;
      OnlyConnects(env, ins[..n]);
      AsrTextIsLast(env, ins[..n]);
      AsrTextIsLast(env, ins);
      StepEmits(env, Run(env, ins[..n]), ins[n]);
    }
  }

  /** A local answer that is not UTF-8: a named action is found, and yet nothing is sent and nothing is muted. */
  lemma UndumpableReplyIsDropped()
    ensures exists env, ins ::
              && |ins| == 1 && EventOf(ins[0]) == Some(459) && HasAction(env, LastAsr([]))
              && Run(env, ins) == INITIAL
  {
    var action := LocalAction([97], [[]], [], [], [], []);
    var env := Env(Session([], [], []), t => IsOtherTts, t => Some(t), t => if t == [0xFF] then None else Some(t),
                   (p, t) => Matches, [action], (before, t) => []);
    var f := Frame(Header(1, 1, FULL_SERVER_RSP, MSG_WITH_EVENT, JSON, NO_COMPRESSION, 0), None, Some(ASR_ENDED), [], []);
    var i := Message(Parsed(f, None, 16), Some([0xFF]), 0);
    assert Answers(env.regex, action, [])[0] == Matches;
    assert MatchOf(env.regex, action, []) == Matches;
    assert HasAction(env, LastAsr([]));
    assert Run(env, []) == INITIAL && [i][..0] == [];
    assert Run(env, [i]) == INITIAL;
  }
}

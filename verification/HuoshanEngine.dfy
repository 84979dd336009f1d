/** The objects of src/HuoshanEngine.hpp that the callbacks work on, each callback proved to be one step of the
    dialogue machine. */
module HuoshanEngine {
  import opened Common
  import opened Words
  import opened HuoshanProto
  import opened LocalAi
  import opened Dialogue
  import Sound

  class Proto {
    var isReady: bool
    var disabledRemote: bool
    var asrText: Bytes

    constructor ()
      ensures !isReady && !disabledRemote && asrText == []
    {
      isReady, disabledRemote, asrText := false, false, [];
    }

    /** `parse`: a cursor runs over the frame; the flags change on the way.  The code checks no bounds: `None` is a read
        outside the response, from where on nothing is claimed. */
    method Parse(response: Bytes, env: Env, signed: bool) returns (hp: Option<Parsed>, thrown: bool)
      requires |response| < INT_LIMIT
      modifies this`isReady, this`disabledRemote
      ensures hp.Some? <==> WellFormed(signed, response)
      ensures hp.Some? ==>
                && hp.value == Decode(signed, response)
                && (thrown <==> ParseThrows(env, old(disabledRemote), hp.value.frame))
                && isReady == ReadyAfterParse(old(isReady), hp.value.frame)
                && disabledRemote == DisabledAfterParse(env, old(disabledRemote), hp.value.frame)
    {
      thrown := false;
      if |response| < 4 {
        return None, false;
      }
      var header := ParseHeader(response);
      var sequence: Option<bv32>, event: Option<bv32>, code: Option<bv32> := None, None, None;
      var sessionId: Bytes, payload: Bytes := [], [];
      var start := 4;
      if header.IsResponse() {
        if header.HasSequence() {
          if |response| < start + 4 {
            return None, false;
          }
          sequence := Some(WordAt(signed, response, start));
          start := start + 4;
        }
        if header.HasEvent() {
          if |response| < start + 4 {
            return None, false;
          }
          event := Some(WordAt(signed, response, start));
          if event.value == SESSION_STARTED {
            isReady := true;
          } else if event.value == SESSION_FINISHED {
            isReady := false;
          }
          start := start + 4;
        }
        if !FieldFits(signed, response, start) {
          return None, false;
        }
        sessionId, start := Field(signed, response, start), FieldEnd(signed, response, start);
        if !FieldFits(signed, response, start) {
          return None, false;
        }
        payload, start := Field(signed, response, start), FieldEnd(signed, response, start);
        if event == Some(TTS_SENTENCE_START) {
          if disabledRemote {
            match env.tts(payload)
            case TtsThrows => thrown := true;
            case IsChatTtsText => disabledRemote := false;
            case IsOtherTts =>
          }
        }
      } else if header.messageType == ERROR_INFO {
        if |response| < start + 4 {
          return None, false;
        }
        code := Some(WordAt(signed, response, start));
        start := start + 4;
        if !FieldFits(signed, response, start) {
          return None, false;
        }
        payload, start := Field(signed, response, start), FieldEnd(signed, response, start);
      }
      hp := Some(Parsed(Frame(header, sequence, event, sessionId, payload), code, start));
    }
  }

  class Engine {
    const env: Env
    const signed: bool
    const proto: Proto
    const apool: Sound.AudioQueue
    /** The payloads the sample rate converter has been given. */
    var converted: seq<Bytes>
    /** Everything sent to the server, and everything played. */
    var sent: seq<Msg>
    var played: Bytes

    ghost function View(): State
      reads this, proto, apool
    {
      State(proto.isReady, proto.disabledRemote, proto.asrText, apool.queue, converted, sent, played)
    }

    constructor (env: Env, signed: bool)
      ensures View() == INITIAL && this.env == env && this.signed == signed && fresh(proto) && fresh(apool)
    {
      this.env, this.signed := env, signed;
      proto := new Proto();
      apool := new Sound.AudioQueue();
      converted, sent, played := [], [], [];
    }

    /** Builds a message and sends it; building it can throw. */
    method Send(m: Msg) returns (thrown: bool)
      modifies this`sent
      ensures thrown <==> !Buildable(env, m)
      ensures sent == if thrown then old(sent) else old(sent) + [m]
    {
      thrown := !Buildable(env, m);
      if !thrown {
        sent := sent + [m];
      }
    }

    method OnOpen()
      modifies this`sent
      ensures View() == Step(env, old(View()), Opened)
    {
      var _ := Send(StartConnect);
    }

    method OnClose()
      modifies proto`isReady
      ensures View() == Step(env, old(View()), Closed)
    {
      proto.isReady := false;
    }

    method OnError()
      modifies proto`isReady
      ensures View() == Step(env, old(View()), Failed)
    {
      proto.isReady := false;
    }

    method OnMicrophone(audio: Bytes)
      modifies this`sent
      ensures View() == Step(env, old(View()), Microphone(audio))
    {
      if proto.isReady {
        var _ := Send(TaskRequest(audio));
      }
    }

    method OnPlayback(output: array<byte>, bytes: nat)
      requires bytes <= output.Length
      modifies this`played, apool, output
      ensures View() == Step(env, old(View()), Playback(bytes))
      ensures played == old(played) + old(apool.queue)[..Min(bytes, |old(apool.queue)|)]
      ensures output[..] == played[|old(played)|..] + old(output[..])[|played| - |old(played)|..]
    {
      var audio := Sound.PlayCb(apool, output, bytes);
      assert audio == old(apool.queue)[..|audio|] && apool.queue == old(apool.queue)[|audio|..];
      played := played + audio;
    }

    /** `HandleResponse`; `thrown` is an exception that leaves it. */
    method HandleResponse(response: Bytes, lcm: Option<Bytes>, rand: nat) returns (thrown: bool)
      requires WellFormed(signed, response)
      modifies this`sent, this`converted, proto, apool
      ensures View() == Step(env, old(View()), Message(Decode(signed, response), lcm, rand))
      ensures var f := Decode(signed, response).frame;
              thrown <==>
              || (f.event == Some(350) && old(proto.disabledRemote) && env.tts(f.payload) == TtsThrows)
              || (f.event == Some(150) && env.session.hello != [] && env.dump(env.session.hello) == None)
    {
      hide Decode, React;
      var parsed;
      parsed, thrown := proto.Parse(response, env, signed);
      var h := parsed.value;
      assert View() == AfterParse(env, old(View()), h.frame);
      if thrown {
        return;
      }
      thrown := Dispatch(h.frame, lcm, rand);
      if thrown {
        return;
      }
      if h.frame.header.messageType == AUDIO_ONLY_RSP {
        if !proto.disabledRemote {
          Play(h.frame.payload);
        }
      }
    }

    /** The branches on the event. */
    method Dispatch(f: Frame, lcm: Option<Bytes>, rand: nat) returns (thrown: bool)
      modifies this`sent, proto
      ensures thrown <==> HelloThrows(env, f)
      ensures View() == if thrown then old(View()).(isReady := true) else React(env, old(View()), f, lcm, rand)
    {
      hide ReplyOf;
      var event := f.event;
      thrown := false;
      if event == Some(CONNECTION_STARTED) {
        var _ := Send(StartSession);
      }
      if event == Some(SESSION_STARTED) {
        proto.isReady := true;
        thrown := Send(SayHello);
        if thrown {
          return;
        }
      }
      if event == Some(ASR_RESPONSE) {
        proto.asrText := f.payload;
      }
      if event == Some(ASR_ENDED) {
        Answer(lcm, rand);
      }
      if event == Some(TTS_ENDED) {
        if proto.disabledRemote {
          proto.disabledRemote := false;
        }
      }
    }

    /** The ASREnded branch, with its exceptions caught. */
    method Answer(lcm: Option<Bytes>, rand: nat)
      modifies this`sent, proto`disabledRemote
      ensures View() == Reply(old(View()), ReplyOf(env, old(proto.asrText), lcm, rand))
    {
      var text := env.originText(proto.asrText);
      if text.None? {
        return;
      }
      var found := MatchAction(env.regex, env.actions, text.value);
      if found.None? {
        return;
      }
      var action := found.value;
      if action.name != [] {
        var reply: Bytes;
        if lcm.Some? {
          if lcm.value != [] {
            reply := lcm.value;
          } else {
            reply := RandReply(action.replysp, rand);
          }
        } else {
          reply := RandReply(action.replysn, rand);
        }
        var thrown := Send(ChatTTSText(reply, true, false));
        if thrown {
          return;
        }
        thrown := Send(ChatTTSText([], false, true));
        proto.disabledRemote := true;
      }
    }

    /** Converts a payload and queues what comes out; the converter returns at once for an empty one. */
    method Play(payload: Bytes)
      requires !proto.disabledRemote
      modifies this`converted, apool
      ensures View() == Download(env, old(View()), payload)
    {
      if payload == [] {
        return;
      }
      var audio := env.convert(converted, payload);
      converted := converted + [payload];
      if audio != [] {
        apool.Push(audio);
      } else {
        assert apool.queue + audio == apool.queue;
      }
    }

    method Handle(c: Callback, output: array<byte>)
      requires Acceptable(signed, c) && (c.CbPlayback? ==> c.bytes <= output.Length)
      modifies this, proto, apool, output
      ensures View() == Step(env, old(View()), InputOf(signed, c))
    {
      match c
      case CbOpen => OnOpen();
      case CbClose => OnClose();
      case CbError => OnError();
      case CbMessage(response, lcm, rand) => var _ := HandleResponse(response, lcm, rand);
      case CbMicrophone(audio) => OnMicrophone(audio);
      case CbPlayback(bytes) => OnPlayback(output, bytes);
    }
  }

  // ---------------------------------------------------------------------------------------------------------------
  // Whole runs, on the bytes that arrive

  datatype Callback =
    | CbOpen
    | CbClose
    | CbError
    | CbMessage(response: Bytes, lcm: Option<Bytes>, rand: nat)
    | CbMicrophone(audio: Bytes)
    | CbPlayback(bytes: nat)

  predicate Acceptable(signed: bool, c: Callback) {
    c.CbMessage? ==> WellFormed(signed, c.response)
  }

  function InputOf(signed: bool, c: Callback): Input
    requires Acceptable(signed, c)
  {
    match c
    case CbOpen => Opened
    case CbClose => Closed
    case CbError => Failed
    case CbMessage(response, lcm, rand) => Message(Decode(signed, response), lcm, rand)
    case CbMicrophone(audio) => Microphone(audio)
    case CbPlayback(bytes) => Playback(bytes)
  }

  function Inputs(signed: bool, cs: seq<Callback>): (r: seq<Input>)
    requires forall c | c in cs :: Acceptable(signed, c)
    ensures |r| == |cs|
  {
    if cs == [] then [] else Inputs(signed, cs[..|cs| - 1]) + [InputOf(signed, cs[|cs| - 1])]
  }

  lemma RunOneMore(env: Env, signed: bool, cs: seq<Callback>, i: nat)
    requires i < |cs| && forall c | c in cs :: Acceptable(signed, c)
    ensures Run(env, Inputs(signed, cs[..i + 1])) == Step(env, Run(env, Inputs(signed, cs[..i])), InputOf(signed, cs[i]))
  {
    assert cs[..i + 1][..i] == cs[..i];
    var before, after := Inputs(signed, cs[..i]), Inputs(signed, cs[..i + 1]);
    assert after == before + [InputOf(signed, cs[i])];
    assert after[..i] == before;
  }

  /** Any sequence of callbacks on a fresh engine is a run of the machine, so all that holds of runs holds of it. */
  method Execute(e: Engine, cs: seq<Callback>, output: array<byte>)
    requires e.View() == INITIAL
    requires forall c | c in cs :: Acceptable(e.signed, c) && (c.CbPlayback? ==> c.bytes <= output.Length)
    modifies e, e.proto, e.apool, output
    ensures e.View() == Run(e.env, Inputs(e.signed, cs))
    ensures e.proto.isReady <==> SessionOpen(Inputs(e.signed, cs))
    ensures e.proto.disabledRemote <==> Muted(e.env, Inputs(e.signed, cs))
    ensures e.sent == Due(e.env, Inputs(e.signed, cs))
    ensures e.signed ==>
              !e.proto.isReady && !e.proto.disabledRemote && forall m | m in e.sent :: m.StartConnect? || m.StartSession?
  {
    hide Step, Acceptable, InputOf;
    var i := 0;
    while i < |cs|
      invariant i <= |cs|
      invariant e.View() == Run(e.env, Inputs(e.signed, cs[..i]))
    {
      RunOneMore(e.env, e.signed, cs, i);
      e.Handle(cs[i], output);
      i := i + 1;
    }
    assert cs[..i] == cs;
    ReadyIffSessionOpen(e.env, Inputs(e.signed, cs));
    DisabledIffMuted(e.env, Inputs(e.signed, cs));
    SentIsDue(e.env, Inputs(e.signed, cs));
    if e.signed {
      SignedNeverReady(e.env, cs);
    }
  }

  lemma {:induction false} SignedLosesEvents(cs: seq<Callback>)
    requires forall c | c in cs :: Acceptable(true, c)
    ensures NoneLost(Inputs(true, cs))
  {
    hide Decode, IsLost;
    if cs != [] {
      var c := cs[|cs| - 1];
      SignedLosesEvents(cs[..|cs| - 1]);
      assert Acceptable(true, c);
      if c.CbMessage? {
        SignedFrameHasNoLostEvent(c.response);
      }
    }
  }

  /** Where plain `char` is signed, whatever the server sends, no session ever starts: the engine is never ready, never
      muted, and never sends a greeting, audio or a reply. */
  lemma SignedNeverReady(env: Env, cs: seq<Callback>)
    requires forall c | c in cs :: Acceptable(true, c)
    ensures var s := Run(env, Inputs(true, cs));
            !s.isReady && !s.disabledRemote && forall m | m in s.sent :: m.StartConnect? || m.StartSession?
  {
    SignedLosesEvents(cs);
    OnlyConnects(env, Inputs(true, cs));
  }
}

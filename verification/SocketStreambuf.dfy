/** `asio::basic_socket_streambuf` (include/asio/basic_socket_streambuf.hpp): fixed get and put buffers over a socket
    that receives and sends what it can.

    The socket's answers come from scripts, one entry for each turn of a retry loop.  A script that has run out
    answers that the expiry time has passed, so every call that returns is covered by a long enough script. */
module SocketStreambuf {
  import opened Common

  const BUFFER_SIZE: nat := 512
  const PUTBACK_MAX: nat := 8

  /** The error numbers that a failing socket call can leave behind; there is no "no error" among them. */
  datatype Errno = WouldBlock | TryAgain | InProgress | OtherError(code: nat)

  datatype ErrorCode = NoError | System(errno: Errno) | TimedOut | EndOfFile | NotFound

  predicate MeansRetry(e: Errno) {
    e.WouldBlock? || e.TryAgain?
  }

  /** One turn of a loop: the expiry time has passed; or the call transfers data; or it fails, and if that only means
      "not now" the socket is polled, which can fail as well. */
  datatype RecvStep = RecvLate | RecvData(arrived: Bytes) | RecvFails(errno: Errno, poll: Option<Errno>)
  datatype SendStep = SendLate | SendSome(most: nat) | SendFails(errno: Errno, poll: Option<Errno>)

  /** What the turns of a receiving loop come to: the first bytes that arrive, or why none do. */
  datatype Arrival = Arrival(data: Bytes, error: ErrorCode)

  function FirstArrival(script: seq<RecvStep>): (r: Arrival)
    ensures r.data == [] ==> r.error != NoError
  {
    if script == [] then Arrival([], TimedOut) else
    match script[0]
    case RecvLate => Arrival([], TimedOut)
    case RecvData(arrived) => Arrival(arrived, if arrived == [] then EndOfFile else NoError)
    case RecvFails(errno, poll) =>
      if !MeansRetry(errno) then Arrival([], System(errno))
      else if poll.Some? then Arrival([], System(poll.value))
      else FirstArrival(script[1..])
  }

  /** What the turns of a sending loop come to: how much goes out, what stops it if that is not all, and the turns that
      are left. */
  datatype Outcome = Outcome(sent: nat, ok: bool, error: ErrorCode, rest: seq<SendStep>)

  /** `data` is still to be sent, after `done` bytes. */
  function SendOutcome(script: seq<SendStep>, data: Bytes, done: nat): (r: Outcome)
    ensures done <= r.sent <= done + |data| && (r.ok <==> r.sent == done + |data|)
    decreases |script|
  {
    if data == [] then Outcome(done, true, NoError, script)
    else if script == [] then Outcome(done, false, TimedOut, script)
    else
      match script[0]
      case SendLate => Outcome(done, false, TimedOut, script)
      case SendSome(most) =>
        var n := Min(most, |data|);
        if n == 0 then Outcome(done, false, NoError, script[1..])
        else SendOutcome(script[1..], data[n..], done + n)
      case SendFails(errno, poll) =>
        if !MeansRetry(errno) then Outcome(done, false, System(errno), script[1..])
        else if poll.Some? then Outcome(done, false, System(poll.value), script[1..])
        else SendOutcome(script[1..], data, done)
  }

  lemma NothingToSend(script: seq<SendStep>)
    ensures SendOutcome(script, [], 0) == Outcome(0, true, NoError, script)
  {
  }

  // ---------------------------------------------------------------------------------------------------------------
  // What the turns come to, one by one

  /** As much of the arriving bytes as the get area behind the putback area holds. */
  predicate IsWhatArrives(script: seq<RecvStep>, unread: Bytes) {
    var data := FirstArrival(script).data;
    unread == data[..Min(504, |data|)]
  }

  /** The first `j` turns of a receive only say "not now", and the socket then becomes ready. */
  ghost predicate RecvWaits(script: seq<RecvStep>, j: nat) {
    j <= |script| && forall k | 0 <= k < j :: script[k] == RecvFails(WouldBlock, None) || script[k] == RecvFails(TryAgain, None)
  }

  /** Such turns are waited out.  Bytes that arrive then are what the receive gives; the expiry time passing, the end of
      the stream, any other error number and a failing poll end it with exactly that error. */
  lemma {:induction false} ReceiveAfterWaiting(script: seq<RecvStep>, j: nat)
    requires RecvWaits(script, j)
    ensures j == |script| ==> FirstArrival(script) == Arrival([], TimedOut)
    ensures j < |script| ==>
              match script[j]
              case RecvLate => FirstArrival(script) == Arrival([], TimedOut)
              case RecvData(arrived) => FirstArrival(script) == Arrival(arrived, if arrived == [] then EndOfFile else NoError)
              case RecvFails(errno, poll) =>
                match errno {
                  case WouldBlock => poll.Some? ==> FirstArrival(script) == Arrival([], System(poll.value))
                  case TryAgain => poll.Some? ==> FirstArrival(script) == Arrival([], System(poll.value))
                  case InProgress => FirstArrival(script) == Arrival([], System(InProgress))
                  case OtherError(code) => FirstArrival(script) == Arrival([], System(OtherError(code)))
                }
  {
    if j > 0 {
      ReceiveAfterWaiting(script[1..], j - 1);
    }
  }

  /** The first `j` turns of a send take some bytes, or only say "not now" until the socket becomes ready. */
  ghost predicate SendWaits(script: seq<SendStep>, j: nat) {
    && j <= |script|
    && forall k | 0 <= k < j ::
         || script[k] == SendFails(WouldBlock, None) || script[k] == SendFails(TryAgain, None)
         || (script[k].SendSome? && script[k].most > 0)
  }

  /** How many bytes the first `j` turns are ready to take. */
  ghost function Offered(script: seq<SendStep>, j: nat): nat
    requires j <= |script|
  {
    if j == 0 then 0 else Offered(script, j - 1) + if script[j - 1].SendSome? then script[j - 1].most else 0
  }

  lemma {:induction false} OfferedFront(script: seq<SendStep>, j: nat)
    requires 0 < j <= |script|
    ensures Offered(script, j) == (if script[0].SendSome? then script[0].most else 0) + Offered(script[1..], j - 1)
  {
    if j > 1 {
      OfferedFront(script, j - 1);
    }
  }

  /** Waiting turns that are ready to take all the data send all of it, and no later turn is used up. */
  lemma {:induction false} SendsAll(script: seq<SendStep>, j: nat, data: Bytes, done: nat)
    requires SendWaits(script, j) && Offered(script, j) >= |data|
    ensures SendOutcome(script, data, done).ok
    ensures (j == 0 || Offered(script, j - 1) < |data|) ==> SendOutcome(script, data, done).rest == script[j..]
  {
    if data != [] {
      OfferedFront(script, j);
      if j > 1 {
        OfferedFront(script, j - 1);
      }
      var n := if script[0].SendSome? then Min(script[0].most, |data|) else 0;
      SendsAll(script[1..], j - 1, data[n..], done + n);
      assert script[1..][j - 1..] == script[j..];
    } else {
      assert script[0..] == script;
    }
  }

  /** Waiting turns that take less send just that; the turn after them, when it is none of that kind, ends the attempt
      with exactly its error. */
  lemma {:induction false} SendsUntil(script: seq<SendStep>, j: nat, data: Bytes, done: nat)
    requires SendWaits(script, j) && Offered(script, j) < |data|
    ensures var sent := done + Offered(script, j);
            && (j == |script| ==> SendOutcome(script, data, done) == Outcome(sent, false, TimedOut, []))
            && (j < |script| ==>
                  match script[j]
                  case SendLate => SendOutcome(script, data, done) == Outcome(sent, false, TimedOut, script[j..])
                  case SendSome(most) =>
                    most == 0 ==> SendOutcome(script, data, done) == Outcome(sent, false, NoError, script[j + 1..])
                  case SendFails(errno, poll) =>
                    match errno {
                      case WouldBlock =>
                        poll.Some? ==> SendOutcome(script, data, done) == Outcome(sent, false, System(poll.value), script[j + 1..])
                      case TryAgain =>
                        poll.Some? ==> SendOutcome(script, data, done) == Outcome(sent, false, System(poll.value), script[j + 1..])
                      case InProgress =>
                        SendOutcome(script, data, done) == Outcome(sent, false, System(InProgress), script[j + 1..])
                      case OtherError(code) =>
                        SendOutcome(script, data, done) == Outcome(sent, false, System(OtherError(code)), script[j + 1..])
                    })
  {
    if j == 0 {
      assert script[0..] == script;
    } else {
      OfferedFront(script, j);
      var n := if script[0].SendSome? then script[0].most else 0;
      SendsUntil(script[1..], j - 1, data[n..], done + n);
      assert script[1..][j - 1..] == script[j..];
      assert j < |script| ==> script[1..][j - 1] == script[j] && script[1..][j..] == script[j + 1..];
    }
  }

  // ---------------------------------------------------------------------------------------------------------------
  // The output side on values

  /** What one flush handed to the socket, and whether it got through. */
  datatype Flush = Flush(bytes: Bytes, ok: bool)

  function AllSent(log: seq<Flush>): Bytes {
    if log == [] then [] else AllSent(log[..|log| - 1]) + log[|log| - 1].bytes
  }

  function Delivered(log: seq<Flush>): Bytes {
    if log == [] then [] else
    Delivered(log[..|log| - 1]) + if log[|log| - 1].ok then log[|log| - 1].bytes else []
  }

  /** The socket's turns to come, what is in the put area, and the area's size, which is 0 in unbuffered mode. */
  datatype OutState = OutState(script: seq<SendStep>, pending: Bytes, capacity: nat)

  datatype OutOp = PutChar(c: byte) | DoSync | DoUnbuffer

  /** The state after some operations, the characters they accepted, and their flushes. */
  datatype OutResult = OutResult(state: OutState, accepted: Bytes, log: seq<Flush>)

  /** What an overflow with `c` has to send: the put area, or in unbuffered mode the character itself. */
  function ToSend(s: OutState, c: IntType): Bytes {
    if s.capacity > 0 then s.pending else if c.Char? then [c.c] else []
  }

  function OverflowResult(s: OutState, c: IntType): OutResult {
    var all := ToSend(s, c);
    var w := SendOutcome(s.script, all, 0);
    var log := [Flush(all[..w.sent], w.ok)];
    var chars := if c.Char? then [c.c] else [];
    if w.ok then OutResult(OutState(w.rest, if s.capacity > 0 then chars else [], s.capacity), chars, log)
    else OutResult(s.(script := w.rest), [], log)
  }

  function OutStep(s: OutState, op: OutOp): OutResult {
    match op
    case PutChar(c) =>
      if |s.pending| < s.capacity then OutResult(s.(pending := s.pending + [c]), [c], []) else OverflowResult(s, Char(c))
    case DoSync => OverflowResult(s, Eof)
    case DoUnbuffer => OutResult(if s.pending == [] then s.(capacity := 0) else s, [], [])
  }

  /** Everything a run does, from the operations, the socket's turns and the put area it starts with. */
  function OutRun(s: OutState, ops: seq<OutOp>): OutResult {
    if ops == [] then OutResult(s, [], []) else
    var before := OutRun(s, ops[..|ops| - 1]);
    var last := OutStep(before.state, ops[|ops| - 1]);
    OutResult(last.state, before.accepted + last.accepted, before.log + last.log)
  }

  predicate OutValid(s: OutState) {
    |s.pending| <= s.capacity
  }

  function Puts(chars: Bytes): (ops: seq<OutOp>)
    ensures |ops| == |chars| && forall i | 0 <= i < |ops| :: ops[i] == PutChar(chars[i])
  {
    seq(|chars|, i requires 0 <= i < |chars| => PutChar(chars[i]))
  }

  /** As long as they fit the put area, characters are only collected there, and nothing is sent. */
  lemma {:induction false} PutsAreBuffered(s: OutState, chars: Bytes)
    requires |s.pending| + |chars| <= s.capacity
    ensures OutRun(s, Puts(chars)) == OutResult(OutState(s.script, s.pending + chars, s.capacity), chars, [])
  {
    hide OutStep;
    if chars == [] {
      assert s.pending + [] == s.pending;
    } else {
      var n := |chars| - 1;
      var before := s.(pending := s.pending + chars[..n]);
      PutsAreBuffered(s, chars[..n]);
      assert Puts(chars)[..n] == Puts(chars[..n]);
      PutIsBuffered(before, chars[n]);
      assert before.pending + [chars[n]] == s.pending + chars && chars[..n] + [chars[n]] == chars;
    }
  }

  lemma PutIsBuffered(s: OutState, c: byte)
    requires |s.pending| < s.capacity
    ensures OutStep(s, PutChar(c)) == OutResult(s.(pending := s.pending + [c]), [c], [])
  {
  }

  /** A character for a full put area makes the area be sent, and is then the first of the next; without a put area the
      character itself is sent.  If waiting does not get all of it out, the character is not accepted. */
  lemma PutWhenFull(s: OutState, c: byte, j: nat)
    requires |s.pending| == s.capacity && SendWaits(s.script, j)
    ensures var all := if s.capacity == 0 then [c] else s.pending;
            var t := OutStep(s, PutChar(c));
            && (Offered(s.script, j) >= |all| ==>
                  t.accepted == [c] && t.log == [Flush(all, true)] && t.state.pending == if s.capacity == 0 then [] else [c])
            && (Offered(s.script, j) < |all| && (j == |s.script| || s.script[j].SendLate?) ==>
                  t.accepted == [] && t.log == [Flush(all[..Offered(s.script, j)], false)] && t.state.pending == s.pending)
  {
    var all := if s.capacity == 0 then [c] else s.pending;
    if Offered(s.script, j) >= |all| {
      SendsAll(s.script, j, all, 0);
      assert all[..|all|] == all;
    } else {
      SendsUntil(s.script, j, all, 0);
    }
  }

  lemma AllSentOne(f: Flush)
    ensures AllSent([f]) == f.bytes && Delivered([f]) == if f.ok then f.bytes else []
  {
    assert [f][..0] == [];
  }

  lemma {:induction false} LogsConcat(a: seq<Flush>, b: seq<Flush>)
    ensures AllSent(a + b) == AllSent(a) + AllSent(b) && Delivered(a + b) == Delivered(a) + Delivered(b)
  {
    if b == [] {
      assert a + b == a;
    } else {
      var n := |b| - 1;
      assert (a + b)[..|a + b| - 1] == a + b[..n];
      LogsConcat(a, b[..n]);
      var sent, done := b[n].bytes, if b[n].ok then b[n].bytes else [];
      assert (AllSent(a) + AllSent(b[..n])) + sent == AllSent(a) + (AllSent(b[..n]) + sent);
      assert (Delivered(a) + Delivered(b[..n])) + done == Delivered(a) + (Delivered(b[..n]) + done);
    }
  }

  /** The bytes of successful flushes and what is pending now are what was pending and was accepted since, in order. */
  lemma StepAccounts(s: OutState, op: OutOp)
    requires OutValid(s)
    ensures var t := OutStep(s, op);
            OutValid(t.state) && Delivered(t.log) + t.state.pending == s.pending + t.accepted
  {
    var t := OutStep(s, op);
    if t.log == [] {
      assert [] + t.state.pending == t.state.pending;
      assert s.pending + [] == s.pending;
    } else {
      var all := ToSend(s, if op.PutChar? then Char(op.c) else Eof);
      assert all[..|all|] == all;
      AllSentOne(t.log[0]);
      assert s.pending + [] == s.pending == [] + s.pending;
      assert all + [] == all;
    }
  }

  lemma {:induction false} RunAccounts(s: OutState, ops: seq<OutOp>)
    requires OutValid(s)
    ensures var t := OutRun(s, ops);
            OutValid(t.state) && Delivered(t.log) + t.state.pending == s.pending + t.accepted
  {
    if ops == [] {
      assert [] + s.pending == s.pending + [];
    } else {
      var n := |ops| - 1;
      var before := OutRun(s, ops[..n]);
      var last := OutStep(before.state, ops[n]);
      RunAccounts(s, ops[..n]);
      StepAccounts(before.state, ops[n]);
      LogsConcat(before.log, last.log);
      FourParts(s.pending, before.accepted, last.accepted, Delivered(before.log), before.state.pending,
                Delivered(last.log), last.state.pending);
    }
  }

  /** A failed flush that got some bytes out. */
  predicate Partial(f: Flush) {
    !f.ok && f.bytes != []
  }

  lemma {:induction false} SentIsDeliveredIffNoPartialFailure(log: seq<Flush>)
    ensures |Delivered(log)| <= |AllSent(log)|
    ensures |AllSent(log)| == |Delivered(log)| <==> forall f | f in log :: !Partial(f)
    ensures AllSent(log) == Delivered(log) <==> forall f | f in log :: !Partial(f)
  {
    if log != [] {
      var front, last := log[..|log| - 1], log[|log| - 1];
      SentIsDeliveredIffNoPartialFailure(front);
      assert log == front + [last] && last in log;
      assert forall f :: f in log <==> f in front || f == last;
      assert Partial(last) <==> |AllSent(log)| - |AllSent(front)| != |Delivered(log)| - |Delivered(front)|;
    }
  }

  /** Over every run: the characters that went out, followed by those pending, are those written exactly when none of
      the run's failed flushes gets a byte out. */
  lemma OutputConservedIff(s: OutState, ops: seq<OutOp>)
    requires OutValid(s)
    ensures var t := OutRun(s, ops);
            AllSent(t.log) + t.state.pending == s.pending + t.accepted <==> forall f | f in t.log :: !Partial(f)
  {
    var t := OutRun(s, ops);
    var p := t.state.pending;
    RunAccounts(s, ops);
    SentIsDeliveredIffNoPartialFailure(t.log);
    if AllSent(t.log) + p == Delivered(t.log) + p {
      assert |AllSent(t.log)| == |Delivered(t.log)|;
      assert (AllSent(t.log) + p)[..|AllSent(t.log)|] == AllSent(t.log);
      assert (Delivered(t.log) + p)[..|Delivered(t.log)|] == Delivered(t.log);
    }
  }

  /** What the failed flushes in `log` did get out, the peer gets again: it is the beginning of what is delivered later
      and of what is still pending at the end. */
  predicate AllRepeat(log: seq<Flush>, pending: Bytes) {
    forall i | 0 <= i < |log| && !log[i].ok :: Repeats(log, i, pending)
  }

  predicate Repeats(log: seq<Flush>, i: nat, pending: Bytes)
    requires i < |log|
  {
    log[i].bytes <= Delivered(log[i + 1..]) + pending
  }

  lemma RepeatStep(log: seq<Flush>, pending: Bytes, last: seq<Flush>, accepted: Bytes, pending': Bytes)
    requires AllRepeat(log, pending) && Delivered(last) + pending' == pending + accepted
    requires AllRepeat(last, pending')
    ensures AllRepeat(log + last, pending')
  {
    hide Delivered, Repeats;
    forall i | 0 <= i < |log + last| && !(log + last)[i].ok
      ensures Repeats(log + last, i, pending')
    {
      if i < |log| {
        StillRepeats(log, i, pending, last, accepted, pending');
      } else {
        SameRepeat(log, last, i, pending');
      }
    }
  }

  lemma SameRepeat(log: seq<Flush>, last: seq<Flush>, i: nat, pending: Bytes)
    requires |log| <= i < |log + last| && Repeats(last, i - |log|, pending)
    ensures Repeats(log + last, i, pending)
  {
    assert (log + last)[i + 1..] == last[i - |log| + 1..];
  }

  lemma StillRepeats(log: seq<Flush>, i: nat, pending: Bytes, last: seq<Flush>, accepted: Bytes, pending': Bytes)
    requires i < |log| && Repeats(log, i, pending) && Delivered(last) + pending' == pending + accepted
    ensures Repeats(log + last, i, pending')
  {
    hide Delivered;
    var later := log[i + 1..];
    assert (log + last)[i + 1..] == later + last;
    LogsConcat(later, last);
    StillPrefix(log[i].bytes, Delivered(later), pending, accepted, Delivered(last), pending');
  }

  lemma StillPrefix(b: Bytes, later: Bytes, p: Bytes, accepted: Bytes, out: Bytes, p': Bytes)
    requires b <= later + p && out + p' == p + accepted
    ensures b <= (later + out) + p'
  {
    assert (later + out) + p' == later + (out + p') == (later + p) + accepted;
  }

  lemma StepRepeats(s: OutState, op: OutOp)
    requires OutValid(s)
    ensures var t := OutStep(s, op);
            |t.log| <= 1 && AllRepeat(t.log, t.state.pending)
  {
    var t := OutStep(s, op);
    if |t.log| == 1 {
      assert t.log[1..] == [] && [] + t.state.pending == t.state.pending;
    }
  }

  lemma {:induction false} FailedFlushesRepeat(s: OutState, ops: seq<OutOp>)
    requires OutValid(s)
    ensures AllRepeat(OutRun(s, ops).log, OutRun(s, ops).state.pending)
  {
    hide AllRepeat, OutStep;
    if ops == [] {
      NothingRepeats(s.pending);
    } else {
      var n := |ops| - 1;
      var before := OutRun(s, ops[..n]);
      var last := OutStep(before.state, ops[n]);
      FailedFlushesRepeat(s, ops[..n]);
      RunAccounts(s, ops[..n]);
      StepAccounts(before.state, ops[n]);
      StepRepeats(before.state, ops[n]);
      RepeatStep(before.log, before.state.pending, last.log, last.accepted, last.state.pending);
    }
  }

  lemma NothingRepeats(pending: Bytes)
    ensures AllRepeat([], pending)
  {
  }

  class Socket {
    var recvScript: seq<RecvStep>
    var sendScript: seq<SendStep>
    /** Everything the socket has handed over, and everything it has taken. */
    var received: Bytes
    var sent: Bytes

    constructor (recvScript: seq<RecvStep>, sendScript: seq<SendStep>)
      ensures this.recvScript == recvScript && this.sendScript == sendScript && received == sent == []
    {
      this.recvScript, this.sendScript := recvScript, sendScript;
      received, sent := [], [];
    }

    /** `recv` into `space` bytes: no bytes at all mean that the peer has closed.  What does not fit stays. */
    method Recv(space: nat) returns (data: Bytes)
      requires space > 0 && recvScript != [] && recvScript[0].RecvData?
      modifies this`recvScript, this`received
      ensures data == old(recvScript)[0].arrived[..Min(space, |old(recvScript)[0].arrived|)]
      ensures received == old(received) + data
      ensures recvScript == (if |old(recvScript)[0].arrived| <= space then []
                             else [RecvData(old(recvScript)[0].arrived[space..])]) + old(recvScript)[1..]
    {
      var arrived := recvScript[0].arrived;
      if |arrived| <= space {
        data := arrived;
        recvScript := recvScript[1..];
      } else {
        data := arrived[..space];
        recvScript := [RecvData(arrived[space..])] + recvScript[1..];
      }
      received := received + data;
    }

    method Send(data: Bytes) returns (bytes: nat)
      requires sendScript != [] && sendScript[0].SendSome?
      modifies this`sendScript, this`sent
      ensures bytes == Min(old(sendScript)[0].most, |data|) && sent == old(sent) + data[..bytes]
      ensures sendScript == old(sendScript)[1..]
    {
      bytes := Min(sendScript[0].most, |data|);
      sendScript := sendScript[1..];
      sent := sent + data[..bytes];
    }
  }

  class Streambuf {
    const sock: Socket
    var getBuffer: array<byte>
    var putBuffer: array<byte>
    var eback: nat
    var gptr: nat
    var egptr: nat
    var pbase: nat
    var pptr: nat
    var epptr: nat
    var ec: ErrorCode

    ghost predicate Valid()
      reads this
    {
      && getBuffer.Length == BUFFER_SIZE && getBuffer != putBuffer
      && eback == 0 && PUTBACK_MAX <= gptr <= egptr <= BUFFER_SIZE
      && putBuffer.Length in {0, BUFFER_SIZE}
      && 0 == pbase <= pptr <= epptr == putBuffer.Length
    }

    /** Received, and not read yet. */
    ghost function Unread(): Bytes
      requires Valid()
      reads this, getBuffer
    {
      getBuffer[gptr..egptr]
    }

    /** Written, and not sent yet. */
    ghost function Pending(): Bytes
      requires Valid()
      reads this, putBuffer
    {
      putBuffer[pbase..pptr]
    }

    ghost function Output(): OutState
      requires Valid()
      reads this, putBuffer, sock
    {
      OutState(sock.sendScript, Pending(), putBuffer.Length)
    }

    constructor (s: Socket)
      ensures Valid() && sock == s && fresh(getBuffer) && fresh(putBuffer)
      ensures Unread() == [] && Pending() == [] && putBuffer.Length == 512 && ec == NoError
    {
      sock := s;
      getBuffer := new byte[BUFFER_SIZE](_ => 0);
      putBuffer := new byte[BUFFER_SIZE](_ => 0);
      ec := NoError;
      eback, gptr, egptr := 0, PUTBACK_MAX, PUTBACK_MAX;
      pbase, pptr, epptr := 0, 0, BUFFER_SIZE;
    }

    /** `init_buffers`: forgets everything unread and everything pending. */
    method InitBuffers()
      requires Valid()
      modifies this
      ensures Valid() && Unread() == [] && Pending() == []
      ensures getBuffer == old(getBuffer) && putBuffer == old(putBuffer) && ec == old(ec)
    {
      eback, gptr, egptr := 0, PUTBACK_MAX, PUTBACK_MAX;
      if putBuffer.Length == 0 {
        pbase, pptr, epptr := 0, 0, 0;
      } else {
        pbase, pptr, epptr := 0, 0, putBuffer.Length;
      }
    }

    // -------------------------------------------------------------------------------------------------------------
    // Input

    /** Refills an empty get area, behind the putback area, with what one successful receive delivers. */
    method Underflow() returns (r: IntType)
      requires Valid()
      modifies this, getBuffer, sock
      ensures Valid() && getBuffer == old(getBuffer) && putBuffer == old(putBuffer)
      ensures pptr == old(pptr) && sock.sent == old(sock.sent) && sock.sendScript == old(sock.sendScript)
      ensures getBuffer[..8] == old(getBuffer[..8])
      ensures old(Unread()) != [] ==> r == Eof && Unread() == old(Unread()) && sock.received == old(sock.received)
      ensures old(Unread()) == [] ==>
                && sock.received == old(sock.received) + Unread()
                && r == (if Unread() == [] then Eof else Char(Unread()[0]))
                && (r == Eof ==> ec != NoError && ec == FirstArrival(old(sock.recvScript)).error)
      ensures old(Unread()) == [] ==> IsWhatArrives(old(sock.recvScript), Unread())
    {
      if gptr != egptr {
        return Eof;
      }
      var data := RecvTurns(getBuffer.Length - PUTBACK_MAX);
      if data == [] {
        return Eof;
      }
      forall i | PUTBACK_MAX <= i < PUTBACK_MAX + |data| {
        getBuffer[i] := data[i - PUTBACK_MAX];
      }
      eback, gptr, egptr := 0, PUTBACK_MAX, PUTBACK_MAX + |data|;
      forall k | 0 <= k < |data|
        ensures getBuffer[gptr..egptr][k] == data[k]
      {
        assert getBuffer[PUTBACK_MAX + k] == data[k];
      }
      assert getBuffer[gptr..egptr] == data;
      r := Char(getBuffer[gptr]);
    }

    /** What `underflow` comes to after any number of turns that only say "not now". */
    method UnderflowAfterWaiting(ghost j: nat) returns (r: IntType)
      requires Valid() && Unread() == []
      requires RecvWaits(sock.recvScript, j) && j < |sock.recvScript|
      modifies this, getBuffer, sock
      ensures Valid()
      ensures match old(sock.recvScript)[j]
              case RecvLate => r == Eof && ec == TimedOut
              case RecvData(arrived) =>
                if arrived == [] then r == Eof && ec == EndOfFile
                else r == Char(arrived[0]) && Unread() == arrived[..Min(504, |arrived|)]
              case RecvFails(errno, poll) =>
                if errno == WouldBlock || errno == TryAgain then poll.Some? ==> r == Eof && ec == System(poll.value)
                else r == Eof && ec == System(errno)
    {
      ReceiveAfterWaiting(sock.recvScript, j);
      r := Underflow();
    }

    /** The loop of `underflow`: retries until some bytes arrive or something ends the attempt. */
    method RecvTurns(space: nat) returns (data: Bytes)
      requires space > 0
      modifies this`ec, sock`recvScript, sock`received
      ensures |data| <= space && sock.received == old(sock.received) + data
      ensures var w := FirstArrival(old(sock.recvScript));
              data == w.data[..Min(space, |w.data|)] && (data == [] ==> ec == w.error && ec != NoError)
    {
      while true
        invariant sock.received == old(sock.received)
        invariant FirstArrival(sock.recvScript) == FirstArrival(old(sock.recvScript))
        decreases |sock.recvScript|
      {
        if sock.recvScript == [] || sock.recvScript[0].RecvLate? {
          ec := TimedOut;
          return [];
        }
        var turn := sock.recvScript[0];
        if turn.RecvData? {
          data := sock.Recv(space);
          if |data| > 0 {
            return;
          }
          ec := EndOfFile;
          return;
        }
        sock.recvScript := sock.recvScript[1..];
        ec := System(turn.errno);
        if !MeansRetry(turn.errno) {
          return [];
        }
        if turn.poll.Some? {
          ec := System(turn.poll.value);
          return [];
        }
      }
    }

    /** `std::streambuf::sbumpc`. */
    method Sbumpc() returns (r: IntType)
      requires Valid()
      modifies this, getBuffer, sock
      ensures Valid() && getBuffer == old(getBuffer) && putBuffer == old(putBuffer)
      ensures pptr == old(pptr) && sock.sent == old(sock.sent)
      ensures old(sock.received) <= sock.received
      ensures old(Unread()) + sock.received[|old(sock.received)|..] == (if r.Char? then [r.c] else []) + Unread()
      ensures r.Eof? ==> old(Unread()) == [] && sock.received == old(sock.received) && ec != NoError
    {
      hide FirstArrival, IsWhatArrives;
      ghost var before := sock.received;
      if gptr == egptr {
        r := Underflow();
        if r.Eof? {
          return;
        }
      }
      assert old(Unread()) + sock.received[|before|..] == Unread();
      var c := Take();
      r := Char(c);
    }

    /** `*gptr(); gbump(1)`. */
    method Take() returns (c: byte)
      requires Valid() && gptr < egptr
      modifies this`gptr
      ensures Valid() && old(Unread()) == [c] + Unread()
    {
      c := getBuffer[gptr];
      gptr := gptr + 1;
    }

    /** Reads up to `n` characters, stopping at the first end-of-file.  What was unread and what the socket delivered
        meanwhile is exactly what was read, in order, and then what is still unread. */
    method Read(n: nat) returns (delivered: Bytes)
      requires Valid()
      modifies this, getBuffer, sock
      ensures Valid() && old(sock.received) <= sock.received && |delivered| <= n
      ensures old(Unread()) + sock.received[|old(sock.received)|..] == delivered + Unread()
      ensures |delivered| < n ==> Unread() == [] && ec != NoError
    {
      delivered := [];
      while |delivered| < n
        invariant Valid() && getBuffer == old(getBuffer) && putBuffer == old(putBuffer)
        invariant old(sock.received) <= sock.received && |delivered| <= n
        invariant old(Unread()) + sock.received[|old(sock.received)|..] == delivered + Unread()
        decreases n - |delivered|
      {
        ghost var got, unread := sock.received, Unread();
        var r := Sbumpc();
        assert sock.received[|old(sock.received)|..] == got[|old(sock.received)|..] + sock.received[|got|..];
        FourParts(old(Unread()), got[|old(sock.received)|..], sock.received[|got|..], delivered, unread,
                  if r.Char? then [r.c] else [], Unread());
        if r.Eof? {
          return;
        }
        delivered := delivered + [r.c];
      }
    }

    // -------------------------------------------------------------------------------------------------------------
    // Output

    /** Sends everything there is to send, in as many pieces as the socket likes, and then stores the character.  A
        failure leaves the put area as it was, though some of its bytes may have gone out. */
    method Overflow(c: IntType) returns (r: IntType)
      requires Valid()
      modifies this, putBuffer, sock
      ensures Valid() && putBuffer == old(putBuffer) && getBuffer == old(getBuffer)
      ensures gptr == old(gptr) && egptr == old(egptr) && sock.received == old(sock.received)
      ensures var t := OverflowResult(old(Output()), c);
              && Output() == t.state && sock.sent == old(sock.sent) + AllSent(t.log)
              && r == (if t.log[0].ok then NotEof(c) else Eof)
      ensures r.Eof? ==>
                && ec == SendOutcome(old(sock.sendScript), ToSend(old(Output()), c), 0).error
                && pptr == old(pptr) && putBuffer[..] == old(putBuffer[..])
    {
      hide SendOutcome, AllSent;
      ghost var all := ToSend(Output(), c);
      ghost var w := SendOutcome(sock.sendScript, all, 0);
      AllSentOne(Flush(all[..w.sent], w.ok));
      NothingToSend(sock.sendScript);
      var outputBuffer: Bytes;
      if putBuffer.Length == 0 {
        if c.Eof? {
          return NotEof(c);
        }
        outputBuffer := [c.c];
      } else {
        outputBuffer := putBuffer[pbase..pptr];
      }

      var ok := SendTurns(outputBuffer);
      if !ok {
        return Eof;
      }

      if putBuffer.Length > 0 {
        pbase, pptr, epptr := 0, 0, putBuffer.Length;
        if c.Eof? {
          return NotEof(c);
        }
        putBuffer[pptr] := c.c;
        pptr := pptr + 1;
      }
      r := c;
    }

    /** The loop of `overflow`: sends piece by piece until all has gone or something ends the attempt. */
    method SendTurns(all: Bytes) returns (ok: bool)
      modifies this`ec, sock`sendScript, sock`sent
      ensures var w := SendOutcome(old(sock.sendScript), all, 0);
              && ok == w.ok && sock.sent == old(sock.sent) + all[..w.sent] && sock.sendScript == w.rest
              && (!ok ==> ec == w.error)
      ensures forall j: nat | SendWaits(old(sock.sendScript), j) && Offered(old(sock.sendScript), j) >= |all| ::
                ok && sock.sent == old(sock.sent) + all
    {
      ghost var script := sock.sendScript;
      forall j: nat | SendWaits(script, j) && Offered(script, j) >= |all|
        ensures SendOutcome(script, all, 0).ok
      {
        SendsAll(script, j, all, 0);
      }
      var outputBuffer := all;
      ghost var k := 0;
      while |outputBuffer| > 0
        invariant k <= |all| && outputBuffer == all[k..] && sock.sent == old(sock.sent) + all[..k]
        invariant SendOutcome(old(sock.sendScript), all, 0) == SendOutcome(sock.sendScript, outputBuffer, k)
        decreases |sock.sendScript|
      {
        if sock.sendScript == [] || sock.sendScript[0].SendLate? {
          ec := TimedOut;
          return false;
        }
        var turn := sock.sendScript[0];
        if turn.SendSome? {
          var bytes := sock.Send(outputBuffer);
          if bytes > 0 {
            assert all[..k] + all[k..][..bytes] == all[..k + bytes];
            outputBuffer := outputBuffer[bytes..];
            k := k + bytes;
            continue;
          }
          ec := NoError;
          return false;
        }
        sock.sendScript := sock.sendScript[1..];
        ec := System(turn.errno);
        if !MeansRetry(turn.errno) {
          return false;
        }
        if turn.poll.Some? {
          ec := System(turn.poll.value);
          return false;
        }
      }
      ok := true;
    }

    /** `std::streambuf::sputc`. */
    method Sputc(c: byte) returns (accepted: bool)
      requires Valid()
      modifies this, putBuffer, sock
      ensures Valid() && putBuffer == old(putBuffer)
      ensures var t := OutStep(old(Output()), PutChar(c));
              && Output() == t.state && sock.sent == old(sock.sent) + AllSent(t.log)
              && t.accepted == if accepted then [c] else []
    {
      if pptr < epptr {
        putBuffer[pptr] := c;
        pptr := pptr + 1;
        return true;
      }
      var r := Overflow(Char(c));
      accepted := r.Char?;
    }

    /** `sync`, which flushes without adding anything.  On a failure just a beginning of the put area has gone out. */
    method Sync() returns (ok: bool)
      requires Valid()
      modifies this, putBuffer, sock
      ensures Valid() && putBuffer == old(putBuffer) && getBuffer == old(getBuffer)
      ensures var t := OutStep(old(Output()), DoSync);
              Output() == t.state && sock.sent == old(sock.sent) + AllSent(t.log)
      ensures var w := SendOutcome(old(sock.sendScript), old(Pending()), 0);
              && ok == w.ok && sock.sent == old(sock.sent) + old(Pending())[..w.sent]
              && Pending() == (if ok then [] else old(Pending())) && Unread() == old(Unread())
    {
      ghost var all := ToSend(Output(), Eof);
      ghost var w := SendOutcome(sock.sendScript, all, 0);
      AllSentOne(Flush(all[..w.sent], w.ok));
      var r := Overflow(Eof);
      ok := r.Char?;
    }

    /** Switches to unbuffered mode, if nothing is pending and that is what is asked for. */
    method SetBuf(isNull: bool, n: nat) returns (ok: bool)
      requires Valid()
      modifies this, putBuffer, sock
      ensures Valid() && (putBuffer == old(putBuffer) || fresh(putBuffer))
      ensures ok <==> isNull && n == 0 && old(Pending()) == []
      ensures sock.sent == old(sock.sent)
      ensures Output() == if ok then old(Output()).(capacity := 0) else old(Output())
    {
      if pptr == pbase && isNull && n == 0 {
        putBuffer := new byte[0](_ => 0);
        pbase, pptr, epptr := 0, 0, 0;
        var synced := Sync();
        return true;
      }
      return false;
    }

    /** `close`: its answer is only about closing the socket.  What could not be flushed before is dropped. */
    method Close(closeError: Option<Errno>) returns (ok: bool)
      requires Valid()
      modifies this, putBuffer, sock
      ensures Valid() && (ok <==> closeError.None?)
      ensures var w := SendOutcome(old(sock.sendScript), old(Pending()), 0);
              && sock.sent == old(sock.sent) + old(Pending())[..w.sent]
              && (ok && sock.sent == old(sock.sent) + old(Pending()) <==> closeError.None? && w.ok)
      ensures ok ==> ec == NoError && Pending() == [] && Unread() == []
      ensures !ok ==>
                && ec == System(closeError.value) && Unread() == old(Unread())
                && Pending() == if SendOutcome(old(sock.sendScript), old(Pending()), 0).ok then [] else old(Pending())
    {
      ghost var pending := Pending();
      var flushed := Sync();
      assert |sock.sent| == |old(sock.sent)| + |pending| ==> flushed;
      ec := if closeError.Some? then System(closeError.value) else NoError;
      if ec == NoError {
        InitBuffers();
      }
      ok := ec == NoError;
    }
  }

  /** `close` can succeed and lose what was written: the peer has gone, so nothing can be sent any more. */
  method CloseDropsBytes(c: byte) returns (accepted: bool, closed: bool, sent: Bytes)
    ensures accepted && closed && sent == []
  {
    var sock := new Socket([], [SendFails(OtherError(32), None)]);
    var sb := new Streambuf(sock);
    accepted := sb.Sputc(c);
    assert sb.Pending() == [c] && SendOutcome(sock.sendScript, [c], 0).sent == 0;
    closed := sb.Close(None);
    sent := sock.sent;
  }

  // ---------------------------------------------------------------------------------------------------------------
  // Output runs

  /** Every sequence of writes, flushes and attempts to switch the buffer off does what the run on values says; so the
      sent and the pending characters are the written ones exactly when no failed flush of that run gets a byte out, and
      what the others get out is sent again later or still pending. */
  method RunOutput(sb: Streambuf, ops: seq<OutOp>) returns (accepted: Bytes)
    requires sb.Valid()
    modifies sb, sb.putBuffer, sb.sock
    ensures sb.Valid()
    ensures var t := OutRun(old(sb.Output()), ops);
            && sb.Output() == t.state && accepted == t.accepted
            && sb.sock.sent == old(sb.sock.sent) + AllSent(t.log)
            && (sb.sock.sent + sb.Pending() == old(sb.sock.sent) + old(sb.Pending()) + accepted
                <==> forall f | f in t.log :: !Partial(f))
            && AllRepeat(t.log, sb.Pending())
  {
    accepted := [];
    ghost var s0, sent0 := sb.Output(), sb.sock.sent;
    NoOperations(s0, sent0, ops);
    hide OutStep, OutRun, AllSent, AllRepeat, SendOutcome;
    FailedFlushesRepeat(s0, ops);
    var i := 0;
    while i < |ops|
      invariant i <= |ops| && sb.Valid()
      invariant sb.putBuffer == old(sb.putBuffer) || fresh(sb.putBuffer)
      invariant sb.Output() == OutRun(s0, ops[..i]).state && accepted == OutRun(s0, ops[..i]).accepted
      invariant sb.sock.sent == sent0 + AllSent(OutRun(s0, ops[..i]).log)
    {
      OneMoreOperation(s0, sent0, ops, i);
      var more := DoOut(sb, ops[i]);
      accepted := accepted + more;
      i := i + 1;
    }
    assert ops[..i] == ops;
    ConservedOnSocket(s0, sent0, ops);
  }

  lemma NoOperations(s: OutState, sent: Bytes, ops: seq<OutOp>)
    ensures OutRun(s, ops[..0]) == OutResult(s, [], []) && sent + AllSent([]) == sent
  {
  }

  lemma OneMoreOperation(s: OutState, sent: Bytes, ops: seq<OutOp>, i: nat)
    requires i < |ops|
    ensures var before, after := OutRun(s, ops[..i]), OutRun(s, ops[..i + 1]);
            var last := OutStep(before.state, ops[i]);
            && after == OutResult(last.state, before.accepted + last.accepted, before.log + last.log)
            && sent + AllSent(after.log) == (sent + AllSent(before.log)) + AllSent(last.log)
  {
    assert ops[..i + 1][..i] == ops[..i];
    var before := OutRun(s, ops[..i]);
    LogsConcat(before.log, OutStep(before.state, ops[i]).log);
  }

  lemma ConservedOnSocket(s: OutState, sent: Bytes, ops: seq<OutOp>)
    requires OutValid(s)
    ensures var t := OutRun(s, ops);
            (sent + AllSent(t.log)) + t.state.pending == sent + s.pending + t.accepted
            <==> forall f | f in t.log :: !Partial(f)
  {
    hide OutRun, AllSent;
    var t := OutRun(s, ops);
    OutputConservedIff(s, ops);
    SamePrefix(sent, AllSent(t.log) + t.state.pending, s.pending + t.accepted);
    assert sent + (AllSent(t.log) + t.state.pending) == (sent + AllSent(t.log)) + t.state.pending;
    assert sent + (s.pending + t.accepted) == sent + s.pending + t.accepted;
  }

  lemma SamePrefix(p: Bytes, a: Bytes, b: Bytes)
    ensures p + a == p + b <==> a == b
  {
    assert (p + a)[|p|..] == a && (p + b)[|p|..] == b;
  }

  method DoOut(sb: Streambuf, op: OutOp) returns (more: Bytes)
    requires sb.Valid()
    modifies sb, sb.putBuffer, sb.sock
    ensures sb.Valid() && (sb.putBuffer == old(sb.putBuffer) || fresh(sb.putBuffer))
    ensures var t := OutStep(old(sb.Output()), op);
            sb.Output() == t.state && more == t.accepted && sb.sock.sent == old(sb.sock.sent) + AllSent(t.log)
  {
    more := [];
    match op {
      case PutChar(c) =>
        var accepted := sb.Sputc(c);
        more := if accepted then [c] else [];
      case DoSync =>
        var ok := sb.Sync();
      case DoUnbuffer =>
        var ok := sb.SetBuf(true, 0);
    }
  }

  // ---------------------------------------------------------------------------------------------------------------
  // Connecting

  /** How far a connection has got, which the code can learn only through its calls. */
  datatype Link = NoLink | Waiting | Up | Refused(code: nat)

  /** What happens with one endpoint: the answers of `open` and `connect`; while the connection is under way, the answer
      of the poll, where the link stands when the poll ends, and whether its error can be read. */
  datatype Attempt =
    | Late
    | Try(open: Option<Errno>, connect: Option<Errno>, poll: Option<Errno>, link: Link, sockopt: Option<Errno>)
  {
    /** A link under way stays so, comes up, or is refused with an error number. */
    predicate Valid() {
      Try? ==> !link.NoLink? && (link.Refused? ==> link.code != 0)
    }

    /** `poll_connect` returns 0 when its time is over and the link still waits. */
    function PollReturns(): int {
      if Late? || poll.Some? then -1 else if link.Waiting? then 0 else 1
    }

    /** `SO_ERROR` of the socket: there is none while the link waits, and none when it is up. */
    function SoError(): nat {
      if Try? && link.Refused? then link.code else 0
    }

    predicate Started() {
      Try? && open.None? && connect.Some? && (connect.value.InProgress? || connect.value.WouldBlock?)
    }

    /** The code takes the attempt for a success. */
    predicate Succeeds() {
      || (Try? && open.None? && connect.None?)
      || (Started() && PollReturns() >= 0 && sockopt.None? && SoError() == 0)
    }

    /** The code gives up, without trying any later endpoint. */
    predicate Aborts() {
      Late? || (Started() && PollReturns() >= 0 && sockopt.Some?)
    }

    /** The error that an attempt without success leaves; `Decides` spells it out. */
    function Error(): ErrorCode {
      if Late? then TimedOut
      else if open.Some? then System(open.value)
      else if connect.None? then NoError
      else if !Started() then System(connect.value)
      else if poll.Some? then System(poll.value)
      else if sockopt.Some? then System(sockopt.value)
      else if SoError() != 0 then System(OtherError(SoError()))
      else NoError
    }
  }

  /** What becomes of an attempt, field by field: a connection under way, whether `connect` said in-progress or
      would-block, is polled and then asked for its error. */
  lemma Decides(a: Attempt)
    requires a.Valid()
    ensures match a
            case Late => a.Aborts() && a.Error() == TimedOut
            case Try(Some(e), _, _, _, _) => GoesOnWith(a, System(e))
            case Try(None, None, _, _, _) => a.Succeeds()
            case Try(None, Some(TryAgain), _, _, _) => GoesOnWith(a, System(TryAgain))
            case Try(None, Some(OtherError(code)), _, _, _) => GoesOnWith(a, System(OtherError(code)))
            case Try(None, Some(_), Some(e), _, _) => GoesOnWith(a, System(e))
            case Try(None, Some(_), None, _, Some(e)) => a.Aborts() && !a.Succeeds() && a.Error() == System(e)
            case Try(None, Some(_), None, Refused(code), None) => GoesOnWith(a, System(OtherError(code)))
            case Try(None, Some(_), None, _, None) => a.Succeeds()
  {
  }

  predicate GoesOnWith(a: Attempt, ec: ErrorCode) {
    !a.Succeeds() && !a.Aborts() && a.Error() == ec
  }

  /** A connection that was under way and is refused. */
  predicate IsRefused(a: Attempt) {
    && a.Try? && a.open.None? && (a.connect == Some(InProgress) || a.connect == Some(WouldBlock)) && a.poll.None?
    && a.sockopt.None? && a.link.Refused?
  }

  lemma RefusedEverywhere(attempts: seq<Attempt>)
    requires forall a | a in attempts :: a.Valid()
    ensures attempts != [] && (forall i | 0 <= i < |attempts| :: IsRefused(attempts[i])) ==>
              var last := attempts[|attempts| - 1];
              NoneDecides(attempts, |attempts|) && last.Error() == System(OtherError(last.link.code))
  {
    if attempts != [] && forall i | 0 <= i < |attempts| :: IsRefused(attempts[i]) {
      forall i | 0 <= i < |attempts|
        ensures GoesOnWith(attempts[i], System(OtherError(attempts[i].link.code)))
      {
        assert attempts[i] in attempts;
        Decides(attempts[i]);
      }
    }
  }

  predicate FirstToSucceed(attempts: seq<Attempt>, i: int) {
    0 <= i < |attempts| && attempts[i].Succeeds() && NoneDecides(attempts, i)
  }

  predicate FirstToAbort(attempts: seq<Attempt>, i: int) {
    0 <= i < |attempts| && attempts[i].Aborts() && NoneDecides(attempts, i)
  }

  /** Every one of the first `n` attempts makes the code go on to the next. */
  predicate NoneDecides(attempts: seq<Attempt>, n: nat)
    requires n <= |attempts|
  {
    forall j | 0 <= j < n :: !attempts[j].Succeeds() && !attempts[j].Aborts()
  }

  lemma OnlyOneFirst(attempts: seq<Attempt>, i: int)
    requires FirstToSucceed(attempts, i)
    ensures forall j :: FirstToSucceed(attempts, j) ==> j == i
    ensures forall j :: !FirstToAbort(attempts, j) || (j == i && attempts[i].Aborts())
  {
  }

  /** `connect_to_endpoints`, and where the socket's link stands when it returns.  No error means that the socket belongs
      to the first endpoint, in order, whose attempt succeeded, before any that made the code give up; otherwise the
      error is that of the attempt that made it give up, or of the last.  No error with a link that is up is not the
      same: the poll of the successful attempt must not have run into its timeout. */
  method ConnectToEndpoints(ec0: ErrorCode, attempts: seq<Attempt>)
    returns (ec: ErrorCode, connectedTo: int, link: Link)
    requires forall a | a in attempts :: a.Valid()
    ensures ec0 != NoError ==> ec == ec0
    ensures ec0 == NoError && attempts == [] ==> ec == NotFound
    ensures ec0 == NoError ==> (ec == NoError <==> FirstToSucceed(attempts, connectedTo))
    ensures ec0 == NoError ==> (ec == NoError <==> exists i :: FirstToSucceed(attempts, i))
    ensures ec0 == NoError ==> forall i | FirstToAbort(attempts, i) :: ec == attempts[i].Error()
    ensures ec0 == NoError && attempts != [] && NoneDecides(attempts, |attempts|) ==> ec == attempts[|attempts| - 1].Error()
    ensures ec0 == NoError && attempts != [] && (forall i | 0 <= i < |attempts| :: IsRefused(attempts[i])) ==>
              ec == System(OtherError(attempts[|attempts| - 1].link.code))
    ensures ec0 == NoError && ec == NoError ==>
              link == if attempts[connectedTo].connect.None? then Up else attempts[connectedTo].link
    ensures ec0 == NoError ==>
              (ec == NoError && link.Up? <==>
               exists i :: FirstToSucceed(attempts, i) && (attempts[i].connect.None? || attempts[i].PollReturns() != 0))
  {
    RefusedEverywhere(attempts);
    connectedTo, link := -1, NoLink;
    if ec0 != NoError {
      return ec0, connectedTo, link;
    }
    ec := NotFound;
    var i := 0;
    while i < |attempts|
      invariant i <= |attempts| && ec != NoError && connectedTo == -1
      invariant ec == if i == 0 then NotFound else attempts[i - 1].Error()
      invariant NoneDecides(attempts, i)
    {
      var a := attempts[i];
      i := i + 1;
      if a.Late? {
        assert FirstToAbort(attempts, i - 1);
        return TimedOut, connectedTo, link;
      }
      link := NoLink;
      if a.open.Some? {
        ec := System(a.open.value);
        continue;
      }
      if a.connect.None? {
        OnlyOneFirst(attempts, i - 1);
        return NoError, i - 1, Up;
      }
      ec := System(a.connect.value);
      if !a.connect.value.InProgress? && !a.connect.value.WouldBlock? {
        continue;
      }
      link := a.link;
      if a.PollReturns() < 0 {
        ec := System(a.poll.value);
        continue;
      }
      if a.sockopt.Some? {
        assert FirstToAbort(attempts, i - 1);
        return System(a.sockopt.value), connectedTo, link;
      }
      if a.SoError() == 0 {
        assert a in attempts && a.Valid();
        OnlyOneFirst(attempts, i - 1);
        return NoError, i - 1, link;
      }
      ec := System(OtherError(a.SoError()));
    }
  }

  /** One endpoint that never answers: the poll times out, and the stream reports success on a link that still waits. */
  method TimeoutPassesForSuccess() returns (ec: ErrorCode, link: Link)
    ensures ec == NoError && link == Waiting
  {
    var attempts := [Try(None, Some(InProgress), None, Waiting, None)];
    var connectedTo;
    assert attempts[0].Succeeds();
    assert FirstToSucceed(attempts, 0);
    ec, connectedTo, link := ConnectToEndpoints(NoError, attempts);
  }
}

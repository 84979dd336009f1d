/** The audio path of include/sound.hpp: the locked byte queue and the device's callback list.  A region under the
    queue's mutex is one atomic step. */
module Sound {
  import opened Common

  class AudioQueue {
    var queue: Bytes

    constructor ()
      ensures queue == []
    {
      queue := [];
    }

    method Push(audio: Bytes)
      modifies this
      ensures queue == old(queue) + audio
    {
      queue := queue + audio;
    }

    method PopFront(size: nat) returns (audio: Bytes)
      modifies this
      ensures old(queue) == audio + queue
      ensures |audio| == Min(size, |old(queue)|)
    {
      var n := size;
      if |queue| < n {
        n := |queue|;
      }
      audio := queue[..n];
      queue := queue[n..];
    }
  }

  // ---------------------------------------------------------------------------------------------------------------
  // Interleavings of pushes by the network side and pops by the audio callback

  datatype QueueOp = Push(bytes: Bytes) | Pop(n: nat)

  function AllPushed(ops: seq<QueueOp>): Bytes {
    if ops == [] then [] else
    AllPushed(ops[..|ops| - 1]) + PushedBy(ops[|ops| - 1])
  }

  /** The sizes the pops must return: what is asked for, as far as it has been pushed and not popped yet. */
  function PopSizes(initial: nat, ops: seq<QueueOp>): (r: seq<nat>)
    ensures |r| == |ops|
  {
    if ops == [] then [] else
    var before := ops[..|ops| - 1];
    var sizes := PopSizes(initial, before);
    sizes + [match ops[|ops| - 1]
             case Push(_) => 0
             case Pop(n) => Max(0, Min(n, initial + |AllPushed(before)| - Sum(sizes)))]
  }

  function PushedBy(op: QueueOp): Bytes {
    if op.Push? then op.bytes else []
  }

  lemma NoOps(initial: nat)
    ensures AllPushed([]) == [] && PopSizes(initial, []) == [] && Flatten([]) == [] && Lengths([]) == []
  {
  }

  lemma OneMoreOp(initial: nat, ops: seq<QueueOp>, op: QueueOp)
    ensures AllPushed(ops + [op]) == AllPushed(ops) + PushedBy(op)
    ensures PopSizes(initial, ops + [op]) == PopSizes(initial, ops) +
              [if op.Push? then 0 else Max(0, Min(op.n, initial + |AllPushed(ops)| - Sum(PopSizes(initial, ops))))]
  {
    assert (ops + [op])[..|ops|] == ops;
  }

  function Sum(xs: seq<nat>): nat {
    if xs == [] then 0 else Sum(xs[..|xs| - 1]) + xs[|xs| - 1]
  }

  method Do(q: AudioQueue, op: QueueOp) returns (taken: Bytes)
    modifies q
    ensures old(q.queue) + PushedBy(op) == taken + q.queue
    ensures |taken| == if op.Push? then 0 else Min(op.n, |old(q.queue)|)
  {
    taken := [];
    match op {
      case Push(b) =>
        q.Push(b);
        assert [] + q.queue == q.queue;
      case Pop(n) =>
        taken := q.PopFront(n);
        assert old(q.queue) + [] == old(q.queue);
    }
  }

  /** What has been popped and is queued is what was there and has been pushed; each pop has taken what it must. */
  ghost predicate Accounts(start: Bytes, ops: seq<QueueOp>, popped: seq<Bytes>, queued: Bytes) {
    Flatten(popped) + queued == start + AllPushed(ops) && PopSizes(|start|, ops) == Lengths(popped)
  }

  lemma AccountsSnoc(start: Bytes, ops: seq<QueueOp>, popped: seq<Bytes>, queued: Bytes, op: QueueOp, taken: Bytes,
                     queued': Bytes)
    requires Accounts(start, ops, popped, queued)
    requires queued + PushedBy(op) == taken + queued'
    requires |taken| == if op.Push? then 0 else Min(op.n, |queued|)
    ensures Accounts(start, ops + [op], popped + [taken], queued')
  {
    hide Flatten, AllPushed, PopSizes, Sum;
    OneMoreOp(|start|, ops, op);
    SumLengths(popped);
    FourParts(start, AllPushed(ops), PushedBy(op), Flatten(popped), queued, taken, queued');
    FlattenSnoc(popped, taken);
    LengthsSnoc(popped, taken);
    assert |Flatten(popped)| + |queued| == |start| + |AllPushed(ops)|;
  }

  /** Every interleaving is first in, first out: all popped bytes, in order, and then what is still queued, are all
      that was there and was pushed, in order; and every pop returns all it can. */
  method Interleave(q: AudioQueue, ops: seq<QueueOp>) returns (popped: seq<Bytes>)
    modifies q
    ensures |popped| == |ops|
    ensures Flatten(popped) + q.queue == old(q.queue) + AllPushed(ops)
    ensures forall i | 0 <= i < |ops| :: |popped[i]| == PopSizes(|old(q.queue)|, ops)[i]
  {
    popped := [];
    NoOps(|q.queue|);
    assert ops[..0] == [];
    hide Flatten, AllPushed, PushedBy, PopSizes, Sum;
    assert Accounts(q.queue, [], [], q.queue) by {
      assert [] + q.queue == q.queue + [];
    }
    var i := 0;
    while i < |ops|
      invariant i == |popped| <= |ops|
      invariant Accounts(old(q.queue), ops[..i], popped, q.queue)
    {
      ghost var queued := q.queue;
      var taken := Do(q, ops[i]);
      AccountsSnoc(old(q.queue), ops[..i], popped, queued, ops[i], taken, q.queue);
      assert ops[..i + 1] == ops[..i] + [ops[i]];
      popped := popped + [taken];
      i := i + 1;
    }
    assert ops[..i] == ops;
  }

  function Lengths(parts: seq<Bytes>): (r: seq<nat>)
    ensures |r| == |parts| && forall i | 0 <= i < |r| :: r[i] == |parts[i]|
  {
    seq(|parts|, i requires 0 <= i < |parts| => |parts[i]|)
  }

  lemma LengthsSnoc(parts: seq<Bytes>, last: Bytes)
    ensures Lengths(parts + [last]) == Lengths(parts) + [|last|]
  {
  }

  lemma {:induction false} SumLengths(parts: seq<Bytes>)
    ensures Sum(Lengths(parts)) == |Flatten(parts)|
  {
    if parts != [] {
      var n := |parts| - 1;
      SumLengths(parts[..n]);
      assert Lengths(parts)[..n] == Lengths(parts[..n]);
    }
  }

  // ---------------------------------------------------------------------------------------------------------------
  // The device's callback list

  /** A registered callback: the function's identity and the queue its user data leads to.  Both callbacks of the
      program, the player's own and the engine's, pop that queue and copy what they got to the output. */
  datatype SoundCb = SoundCb(cb: nat, queue: AudioQueue)

  function Overwrite(base: Bytes, chunk: Bytes): (r: Bytes)
    requires |chunk| <= |base|
    ensures |r| == |base|
  {
    chunk + base[|chunk|..]
  }

  function Overlay(base: Bytes, chunks: seq<Bytes>): (r: Bytes)
    requires forall c | c in chunks :: |c| <= |base|
    ensures |r| == |base|
  {
    if chunks == [] then base else Overwrite(Overlay(base, chunks[..|chunks| - 1]), chunks[|chunks| - 1])
  }

  /** The last chunk that reaches a position decides it; a position nobody reaches (`last` is -1) keeps its byte. */
  lemma {:induction false} OverlayLastReaching(base: Bytes, chunks: seq<Bytes>, k: nat, last: int)
    requires k < |base| && forall c | c in chunks :: |c| <= |base|
    requires -1 <= last < |chunks| && (last >= 0 ==> k < |chunks[last]|)
    requires forall i | last < i < |chunks| :: k >= |chunks[i]|
    ensures Overlay(base, chunks)[k] == if last >= 0 then chunks[last][k] else base[k]
  {
    var n := |chunks| - 1;
    if last < n {
      OverlayLastReaching(base, chunks[..n], k, last);
    }
  }

  class SoundDev {
    var cbs: seq<SoundCb>

    constructor ()
      ensures cbs == []
    {
      cbs := [];
    }

    method AddCb(cb: nat, data: AudioQueue)
      modifies this
      ensures cbs == old(cbs) + [SoundCb(cb, data)]
    {
      cbs := cbs + [SoundCb(cb, data)];
    }

    method RemoveCb(cb: nat)
      modifies this
      ensures cbs == Without(old(cbs), cb)
    {
      var kept := [];
      for i := 0 to |cbs|
        invariant kept == Without(cbs[..i], cb)
      {
        assert cbs[..i + 1][..i] == cbs[..i];
        if cbs[i].cb != cb {
          kept := kept + [cbs[i]];
        }
      }
      assert cbs[..|cbs|] == cbs;
      cbs := kept;
    }

    ghost function Queues(): set<AudioQueue>
      reads this
    {
      set c | c in cbs :: c.queue
    }

    /** Runs every callback, in registration order, on one output buffer of `bytes` bytes. */
    method AudioCallback(output: array<byte>, bytes: nat) returns (ghost chunks: seq<Bytes>)
      requires bytes <= output.Length
      modifies Queues(), output
      ensures |chunks| == |cbs| && forall c | c in chunks :: |c| <= output.Length
      ensures output[..] == Overlay(old(output[..]), chunks)
      ensures Served(old(Contents()), Contents(), cbs, chunks, bytes)
    {
      chunks := [];
      ghost var start := Contents();
      NothingServed(start, output[..], bytes);
      hide Served, Overlay;
      var i := 0;
      while i < |cbs|
        invariant i == |chunks| <= |cbs| && forall c | c in chunks :: |c| <= output.Length
        invariant output[..] == Overlay(old(output[..]), chunks)
        invariant Served(start, Contents(), cbs[..i], chunks, bytes)
      {
        ghost var before, now := chunks, Contents();
        PrefixSnoc(cbs, i);
        assert cbs[i].queue in Queues();
        var audio := CallOne(cbs[i], output, bytes);
        OverlaySnoc(old(output[..]), before, audio);
        ServedSnoc(start, now, Contents(), cbs[..i], before, bytes, cbs[i], audio);
        chunks := before + [audio];
        i := i + 1;
      }
      assert cbs[..i] == cbs;
    }

    method CallOne(scb: SoundCb, output: array<byte>, bytes: nat) returns (audio: Bytes)
      requires bytes <= output.Length && scb.queue in Queues()
      modifies scb.queue, output
      ensures old(Contents())[scb.queue] == audio + Contents()[scb.queue]
      ensures Contents() == old(Contents())[scb.queue := Contents()[scb.queue]]
      ensures |audio| == Min(bytes, |old(Contents())[scb.queue]|)
      ensures output[..] == Overwrite(old(output[..]), audio)
    {
      audio := PlayCb(scb.queue, output, bytes);
    }

    ghost function Contents(): map<AudioQueue, Bytes>
      reads this, Queues()
    {
      map q | q in Queues() :: q.queue
    }
  }

  /** `PlayDev::PlayCb`, and the callback the engine registers with the player. */
  method PlayCb(queue: AudioQueue, output: array<byte>, bytes: nat) returns (audio: Bytes)
    requires bytes <= output.Length
    modifies queue, output
    ensures old(queue.queue) == audio + queue.queue
    ensures |audio| == Min(bytes, |old(queue.queue)|)
    ensures output[..] == Overwrite(old(output[..]), audio)
  {
    audio := queue.PopFront(bytes);
    if audio != [] {
      forall k | 0 <= k < |audio| {
        output[k] := audio[k];
      }
    }
  }

  function Without(cbs: seq<SoundCb>, cb: nat): (r: seq<SoundCb>)
    ensures forall c | c in cbs :: c in r <==> c.cb != cb
    ensures forall c | c in r :: c in cbs && c.cb != cb
  {
    if cbs == [] then [] else
    var last := cbs[|cbs| - 1];
    Without(cbs[..|cbs| - 1], cb) + if last.cb == cb then [] else [last]
  }

  /** Removing keeps the order: what is left of a list is what is left of its parts, one after the other. */
  lemma {:induction false} WithoutAppend(a: seq<SoundCb>, b: seq<SoundCb>, cb: nat)
    ensures Without(a + b, cb) == Without(a, cb) + Without(b, cb)
  {
    if b == [] {
      assert a + b == a;
    } else {
      var n := |b| - 1;
      assert (a + b)[..|a + b| - 1] == a + b[..n];
      WithoutAppend(a, b[..n], cb);
    }
  }

  /** Registering a callback and removing it again leaves the others, in their order. */
  lemma RemoveUndoesAdd(cbs: seq<SoundCb>, cb: nat, queue: AudioQueue)
    requires forall c | c in cbs :: c.cb != cb
    ensures Without(cbs + [SoundCb(cb, queue)], cb) == cbs
    decreases |cbs|
  {
    assert (cbs + [SoundCb(cb, queue)])[..|cbs|] == cbs;
    WithoutNothing(cbs, cb);
  }

  lemma WithoutNothing(cbs: seq<SoundCb>, cb: nat)
    requires forall c | c in cbs :: c.cb != cb
    ensures Without(cbs, cb) == cbs
  {
  }

  /** The bytes that the callbacks took from queue `q`, in order. */
  ghost function Taken(cbs: seq<SoundCb>, chunks: seq<Bytes>, q: AudioQueue): Bytes
    requires |cbs| == |chunks|
  {
    if cbs == [] then [] else
    var n := |cbs| - 1;
    Taken(cbs[..n], chunks[..n], q) + if cbs[n].queue == q then chunks[n] else []
  }

  /** Nothing is lost or reordered in any queue, and every callback got all it could. */
  ghost predicate Served(start: map<AudioQueue, Bytes>, now: map<AudioQueue, Bytes>, cbs: seq<SoundCb>, chunks: seq<Bytes>, bytes: nat)
    requires |cbs| == |chunks|
  {
    && start.Keys == now.Keys
    && (forall q | q in start :: start[q] == Taken(cbs, chunks, q) + now[q])
    && AllTheyCan(start, cbs, chunks, bytes)
  }

  /** Each callback got as much as it asked for, or all that its predecessors had left in its queue. */
  ghost predicate AllTheyCan(start: map<AudioQueue, Bytes>, cbs: seq<SoundCb>, chunks: seq<Bytes>, bytes: nat)
    requires |cbs| == |chunks|
  {
    cbs != [] ==>
      var n := |cbs| - 1;
      var q := cbs[n].queue;
      && AllTheyCan(start, cbs[..n], chunks[..n], bytes)
      && q in start
      && |chunks[n]| == Min(bytes, |start[q]| - |Taken(cbs[..n], chunks[..n], q)|)
  }

  lemma NothingServed(start: map<AudioQueue, Bytes>, base: Bytes, bytes: nat)
    ensures Served(start, start, [], [], bytes) && Overlay(base, []) == base
  {
  }

  lemma OverlaySnoc(base: Bytes, chunks: seq<Bytes>, last: Bytes)
    requires forall c | c in chunks + [last] :: |c| <= |base|
    ensures forall c | c in chunks :: |c| <= |base|
    ensures Overlay(base, chunks + [last]) == Overwrite(Overlay(base, chunks), last)
  {
    assert forall c | c in chunks :: c in chunks + [last];
    assert last in chunks + [last] && (chunks + [last])[..|chunks|] == chunks;
  }

  lemma TakenSnoc(cbs: seq<SoundCb>, chunks: seq<Bytes>, scb: SoundCb, audio: Bytes, q: AudioQueue)
    requires |cbs| == |chunks|
    ensures Taken(cbs + [scb], chunks + [audio], q) == Taken(cbs, chunks, q) + if scb.queue == q then audio else []
  {
    assert (cbs + [scb])[..|cbs|] == cbs && (chunks + [audio])[..|cbs|] == chunks;
  }

  lemma ServedSnoc(start: map<AudioQueue, Bytes>, now: map<AudioQueue, Bytes>, now': map<AudioQueue, Bytes>,
                   cbs: seq<SoundCb>, chunks: seq<Bytes>, bytes: nat, scb: SoundCb, audio: Bytes)
    requires |cbs| == |chunks| && Served(start, now, cbs, chunks, bytes)
    requires scb.queue in now && scb.queue in now' && now' == now[scb.queue := now'[scb.queue]]
    requires now[scb.queue] == audio + now'[scb.queue] && |audio| == Min(bytes, |now[scb.queue]|)
    ensures Served(start, now', cbs + [scb], chunks + [audio], bytes)
  {
    assert (cbs + [scb])[..|cbs|] == cbs && (chunks + [audio])[..|cbs|] == chunks;
    forall q | q in start
      ensures start[q] == Taken(cbs + [scb], chunks + [audio], q) + now'[q]
    {
      TakenSnoc(cbs, chunks, scb, audio, q);
      if q == scb.queue {
        assert Taken(cbs, chunks, q) + (audio + now'[q]) == (Taken(cbs, chunks, q) + audio) + now'[q];
      }
    }
  }

  lemma PrefixSnoc(cbs: seq<SoundCb>, i: nat)
    requires i < |cbs|
    ensures cbs[..i + 1] == cbs[..i] + [cbs[i]]
  {
  }
}

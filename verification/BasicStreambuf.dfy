/** `asio::basic_streambuf` (include/asio/basic_streambuf.hpp): one growable character array whose get area and
    put area share the storage.  Positions are offsets from `&buffer_[0]`. */
module BasicStreambuf {
  import opened Common

  const BUFFER_DELTA: size_t := 128

  /** `static_cast<int>` of a size: the low 32 bits read as two's complement. */
  function ToInt32(n: size_t): int {
    var low := n as int % 0x1_0000_0000;
    if low < 0x8000_0000 then low else low - 0x1_0000_0000
  }

  lemma ToInt32Exact(n: size_t)
    ensures ToInt32(n) == n as int <==> (n as int) < 0x8000_0000
  {
  }

  /** The amount that `pbump` and `gbump` get. */
  method CastToInt(n: size_t) returns (i: int)
    ensures i == n as int <==> (n as int) < 0x8000_0000
  {
    ToInt32Exact(n);
    i := ToInt32(n);
  }

  /** What a reader sees at offset `g` after the first `|c|` bytes of the array were overwritten by the `|c|` bytes
      that start at offset `g`, without the offset being moved. */
  function Shifted(c: Bytes, g: nat): Bytes {
    seq(|c|, j requires 0 <= j < |c| => if g + j < |c| then c[g + j] else c[j])
  }

  lemma ShiftedView(before: Bytes, after: Bytes, g: nat, p: nat, e: nat)
    requires g <= p <= e <= |before| == |after|
    requires after[..p - g] == before[g..p] && after[p - g..] == before[p - g..]
    ensures after[g..p] == Shifted(before[g..p], g) && after[p..e] == before[p..e]
  {
    var n := p - g;
    SameTail(before, after, n, p, e);
    forall j | 0 <= j < n
      ensures after[g..p][j] == Shifted(before[g..p], g)[j]
    {
      var k := g + j;
      if k < n {
        assert after[k] == after[..n][k];
        assert before[g..p][k] == after[..n][k];
      } else {
        assert after[k] == after[n..][k - n];
        assert before[k] == before[n..][k - n];
      }
    }
  }

  lemma SameTail(before: Bytes, after: Bytes, n: nat, p: nat, e: nat)
    requires n <= p <= e <= |before| == |after| && after[n..] == before[n..]
    ensures after[p..e] == before[p..e]
  {
    forall i | p <= i < e
      ensures after[i] == before[i]
    {
      assert after[i] == after[n..][i - n] && before[i] == before[n..][i - n];
    }
  }

  lemma SplitView(s: Bytes, g: nat, p: nat, e: nat, m: nat)
    requires g <= p && p + m <= e <= |s|
    ensures s[g..p + m] == s[g..p] + s[p..e][..m] && s[p + m..e] == s[p..e][m..]
  {
  }

  lemma FilledView(before: Bytes, after: Bytes, g: nat, p: nat, e: nat, data: Bytes)
    requires g <= p && p + |data| <= e <= |before| == |after|
    requires forall i | 0 <= i < |after| :: after[i] == if p <= i < p + |data| then data[i - p] else before[i]
    ensures after[g..p] == before[g..p] && after[p..e] == data + before[p..e][|data|..]
  {
  }

  /** The readable bytes survive such a shift for certain exactly when nothing moved or source and target do not
      overlap. */
  lemma ShiftedKeepsAllContents(n: nat, g: nat)
    ensures (forall c: Bytes | |c| == n :: Shifted(c, g) == c) <==> (g == 0 || n <= g)
  {
    if g == 0 || n <= g {
      forall c: Bytes | |c| == n
        ensures Shifted(c, g) == c
      {
      }
    } else {
      var c: Bytes := seq(n, j => if j == g then 1 else 0);
      assert Shifted(c, g)[0] == 1 && c[0] == 0;
    }
  }

  lemma HarmlessShift(c: Bytes, g: nat)
    ensures g == 0 || |c| <= g ==> Shifted(c, g) == c
  {
    ShiftedKeepsAllContents(|c|, g);
  }

  datatype Region = Region(offset: int, length: int)

  /** The plain byte queue that the array stands for, with the writable area beside it. */
  datatype Queue = Queue(data: Bytes, area: Bytes) {

    function Fill(bytes: Bytes): Queue
      requires |bytes| <= |area|
    {
      Queue(data, bytes + area[|bytes|..])
    }

    function Commit(k: size_t): Queue {
      var m := Min(k as int, |area|);
      Queue(data + area[..m], area[m..])
    }

    function Consume(k: size_t): Queue {
      Queue(data[Min(k as int, |data|)..], area)
    }
  }

  /** The queue with the offset of its first readable byte in the array. */
  datatype Place = Place(start: nat, queue: Queue)

  class Streambuf {
    const maxSize: size_t
    var buffer: array<byte>
    var capacity: size_t
    var eback: int
    var gptr: int
    var egptr: int
    var pbase: int
    var pptr: int
    var epptr: int

    ghost predicate Valid()
      reads this
    {
      && 0 == eback <= gptr <= egptr <= pptr <= epptr <= maxSize as int
      && 0 <= pbase <= pptr
      && buffer.Length == Max(epptr, 1)
      && buffer.Length <= capacity as int
    }

    /** The input sequence: the bytes that can be read. */
    ghost function Contents(): Bytes
      requires Valid()
      reads this, buffer
    {
      buffer[gptr..pptr]
    }

    /** The output sequence: the bytes that can be written and then committed. */
    ghost function Area(): Bytes
      requires Valid()
      reads this, buffer
    {
      buffer[pptr..epptr]
    }

    ghost function View(): Queue
      requires Valid()
      reads this, buffer
    {
      Queue(Contents(), Area())
    }

    ghost function At(): (s: Place)
      requires Valid()
      reads this, buffer
      ensures |s.queue.data| <= maxSize as int
    {
      Place(gptr, View())
    }

    constructor (maximumSize: size_t)
      ensures Valid() && fresh(buffer)
      ensures maxSize == maximumSize && gptr == 0 && Contents() == []
      ensures epptr == Min(maximumSize as int, 128)
    {
      maxSize := maximumSize;
      var pend := SizeMin(maximumSize, BUFFER_DELTA);
      var n := SizeMax(pend, 1);
      buffer := new byte[n as int](_ => 0);
      capacity := n;
      eback, gptr, egptr := 0, 0, 0;
      pbase, pptr, epptr := 0, 0, pend as int;
    }

    method SetG(b: int, n: int, e: int)
      modifies this`eback, this`gptr, this`egptr
      ensures eback == b && gptr == n && egptr == e
    {
      eback, gptr, egptr := b, n, e;
    }

    method SetP(b: int, e: int)
      modifies this`pbase, this`pptr, this`epptr
      ensures pbase == b && pptr == b && epptr == e
    {
      pbase, pptr, epptr := b, b, e;
    }

    function Size(): (r: size_t)
      requires Valid()
      reads this, buffer
      ensures r as int == |Contents()|
    {
      pptr as size_t - gptr as size_t
    }

    /** `std::vector::resize`: keeps the common prefix, zeroes what is new.  The capacity only has to cover the
        size; how much is over-allocated is the vector's choice. */
    method Resize(n: size_t, ghost kept: nat)
      requires kept <= buffer.Length <= n as int
      modifies this`buffer, this`capacity
      ensures fresh(buffer) && buffer.Length == n as int
      ensures forall i | 0 <= i < old(buffer.Length) :: buffer[i] == old(buffer[i])
      ensures buffer[..kept] == old(buffer[..kept])
      ensures capacity >= n
    {
      var old_ := buffer;
      buffer := new byte[n as int](i requires 0 <= i < n as int reads old_ => if i < old_.Length then old_[i] else 0);
      if capacity < n {
        var chosen: size_t :| chosen >= n;
        capacity := chosen;
      }
    }

    /** `std::memmove` of `count` bytes from offset `from` to the start of the array. */
    method MoveDown(from: nat, count: nat)
      requires from + count <= buffer.Length
      modifies buffer
      ensures buffer[..count] == old(buffer[from..from + count])
      ensures buffer[count..] == old(buffer[count..])
    {
      forall i | 0 <= i < count {
        buffer[i] := buffer[i + from];
      }
    }

    /** Shifts the readable bytes to the start of the array; the offsets stay. */
    method ShiftDown(gnext: size_t, pnext: size_t) returns (end: size_t)
      requires Valid() && gnext as int == gptr && pnext as int == pptr
      modifies buffer
      ensures Valid() && end == pnext - gnext
      ensures buffer[..end as int] == old(Contents())
      ensures Contents() == Shifted(old(Contents()), gptr) && Area() == old(Area())
    {
      hide Shifted;
      ghost var was := buffer[..];
      end := pnext;
      if gnext > 0 {
        end := pnext - gnext;
        MoveDown(gnext as int, end as int);
      }
      ShiftedView(was, buffer[..], gptr, pptr, epptr);
    }

    /** Makes room for `n` bytes after the readable ones; `thrown` is `std::length_error`.  The bytes are moved
        before the check that throws, and the offsets only after it. */
    method Reserve(n: size_t) returns (thrown: bool)
      requires Valid()
      modifies this, buffer
      ensures Valid() && (buffer == old(buffer) || fresh(buffer))
      ensures thrown <==> |old(Contents())| + n as int > maxSize as int
      ensures !thrown ==> Contents() == old(Contents()) && n as int <= epptr - pptr
      ensures n as int <= old(epptr - pptr) ==>
                gptr == old(gptr) && egptr == old(egptr) && pptr == old(pptr) && epptr == old(epptr) && View() == old(View())
      ensures !thrown && n as int > old(epptr - pptr) ==>
                gptr == 0 && egptr == pptr && epptr == Max(old(epptr), |old(Contents())| + n as int)
      ensures thrown ==>
                && gptr == old(gptr) && egptr == old(egptr) && pbase == old(pbase) && pptr == old(pptr)
                && epptr == old(epptr) && buffer == old(buffer) && capacity == old(capacity)
                && Contents() == Shifted(old(Contents()), gptr) && Area() == old(Area())
    {
      hide Shifted;
      var gnext := gptr as size_t;
      var pnext := pptr as size_t;
      var pend := epptr as size_t;

      if n <= pend - pnext {
        return false;
      }

      ghost var before := Contents();
      pnext := ShiftDown(gnext, pnext);

      if n > pend - pnext {
        if n <= maxSize && pnext <= maxSize - n {
          pend := pnext + n;
          Resize(SizeMax(pend, 1), pnext as int);
        } else {
          return true;
        }
      }

      Relocate(pnext, pend);
      thrown := false;
    }

    /** The readable bytes are from now on those at the start of the array. */
    method Relocate(pnext: size_t, pend: size_t)
      requires pnext <= pend <= maxSize && buffer.Length == Max(pend as int, 1) <= capacity as int
      modifies this`eback, this`gptr, this`egptr, this`pbase, this`pptr, this`epptr
      ensures Valid() && Contents() == buffer[..pnext as int]
      ensures gptr == 0 && egptr == pptr == pnext as int && epptr == pend as int
    {
      SetG(0, 0, pnext as int);
      SetP(pnext as int, pend as int);
    }

    /** The returned region is the start of the output sequence; `None` is `std::length_error`. */
    method Prepare(n: size_t) returns (r: Option<Region>)
      requires Valid()
      modifies this, buffer
      ensures Valid() && (buffer == old(buffer) || fresh(buffer))
      ensures r.None? <==> |old(Contents())| + n as int > maxSize as int
      ensures r.Some? ==>
                && Contents() == old(Contents())
                && r.value == Region(pptr, n as int) && 0 <= pptr <= pptr + n as int <= epptr <= buffer.Length
                && (if n as int <= |old(Area())| then At() == old(At()) else gptr == 0)
      ensures r.None? ==>
                && gptr == old(gptr) && egptr == old(egptr) && pbase == old(pbase) && pptr == old(pptr)
                && epptr == old(epptr) && buffer == old(buffer)
                && Contents() == Shifted(old(Contents()), gptr) && Area() == old(Area())
      ensures gptr == 0 || |old(Contents())| <= gptr ==> Contents() == old(Contents())
    {
      var thrown := Reserve(n);
      if thrown {
        HarmlessShift(old(Contents()), gptr);
        return None;
      }
      r := Some(Region(pptr, n as int));
    }

    /** A caller, typically a socket read, writing at the start of a prepared region. */
    method Fill(data: Bytes)
      requires Valid() && |data| <= epptr - pptr
      modifies buffer
      ensures Valid()
      ensures Contents() == old(Contents()) && Area() == data + old(Area())[|data|..]
    {
      ghost var before := buffer[..];
      forall i | pptr <= i < pptr + |data| {
        buffer[i] := data[i - pptr];
      }
      FilledView(before, buffer[..], gptr, pptr, epptr, data);
    }

    /** Moves the first `n` bytes of the output sequence, or all of it, to the input sequence.  `pbump` takes an
        `int`, so the amount is truncated to 32 bits: the move is right exactly below 2^31 bytes. */
    method Commit(n: size_t)
      requires Valid()
      modifies this
      ensures buffer == old(buffer) && gptr == old(gptr) && epptr == old(epptr)
      ensures var m := Min(n as int, old(epptr - pptr));
              && (pptr == old(pptr) + m <==> m < 0x8000_0000)
              && (m < 0x8000_0000 ==> Valid() && egptr == pptr && View() == old(View()).Commit(n))
    {
      var available := epptr as size_t - pptr as size_t;
      var m := SizeMin(n, available);
      var bump := CastToInt(m);
      BumpPut(bump);
    }

    /** `pbump`, and the end of the get area after it. */
    method BumpPut(bump: int)
      requires Valid()
      modifies this`pptr, this`eback, this`gptr, this`egptr
      ensures pptr == old(pptr) + bump && gptr == old(gptr)
      ensures 0 <= bump <= old(epptr - pptr) ==>
                && Valid() && egptr == pptr
                && Contents() == old(Contents()) + old(Area())[..bump] && Area() == old(Area())[bump..]
    {
      SplitView(buffer[..], gptr, pptr, epptr, if 0 <= bump <= epptr - pptr then bump else 0);
      ghost var b, p := buffer[..], pptr;
      assert b[gptr..p] == Contents() && b[p..epptr] == Area();
      pptr := pptr + bump;
      SetG(eback, gptr, pptr);
      if 0 <= bump <= old(epptr - pptr) {
        assert b[gptr..pptr] == Contents() && b[pptr..epptr] == Area();
      }
    }

    /** Removes the first `n` bytes of the input sequence, or all of it; truncated like `Commit`. */
    method Consume(n: size_t)
      requires Valid()
      modifies this
      ensures buffer == old(buffer) && pptr == old(pptr) && epptr == old(epptr) && egptr == pptr
      ensures var m := Min(n as int, |old(Contents())|);
              && (gptr == old(gptr) + m <==> m < 0x8000_0000)
              && (m < 0x8000_0000 ==> Valid() && View() == old(View()).Consume(n))
    {
      if egptr < pptr {
        SetG(0, gptr, pptr);
      }
      var m := n;
      if gptr + n as int > pptr {
        m := (pptr - gptr) as size_t;
      }
      var bump := CastToInt(m);
      gptr := gptr + bump;
    }

    method Underflow() returns (r: IntType)
      requires Valid()
      modifies this
      ensures Valid() && View() == old(View()) && buffer == old(buffer)
      ensures gptr == old(gptr) && pptr == old(pptr)
      ensures r == if Contents() == [] then Eof else Char(Contents()[0])
      ensures r.Char? ==> gptr < egptr
    {
      if gptr < pptr {
        SetG(0, gptr, pptr);
        r := Char(buffer[gptr]);
      } else {
        r := Eof;
      }
    }

    /** `*pptr() = c; pbump(1)`. */
    method Store(c: byte)
      requires Valid() && pptr < epptr
      modifies this`pptr, buffer
      ensures Valid() && pptr == old(pptr) + 1 && Contents() == old(Contents()) + [c] && Area() == old(Area())[1..]
    {
      buffer[pptr] := c;
      pptr := pptr + 1;
    }

    /** Room for at least one more byte, and for 128 if `maxSize` allows that.  When there is none left the get position
        is at the start, so that the early move is harmless. */
    method Enlarge() returns (thrown: bool)
      requires Valid() && pptr == epptr
      modifies this, buffer
      ensures Valid() && (buffer == old(buffer) || fresh(buffer))
      ensures thrown <==> |old(Contents())| == maxSize as int
      ensures !thrown ==>
                && Contents() == old(Contents()) && pptr < epptr && gptr == 0
                && epptr == Max(old(epptr), Min(|old(Contents())| + 128, maxSize as int))
      ensures thrown ==>
                && View() == old(View()) && gptr == old(gptr) && egptr == old(egptr) && pbase == old(pbase)
                && pptr == old(pptr) && epptr == old(epptr) && buffer == old(buffer)
    {
      hide Shifted, Streambuf.Contents, Streambuf.Area;
      var bufferSize := Size();
      var n := if bufferSize < maxSize && maxSize - bufferSize < BUFFER_DELTA then maxSize - bufferSize else BUFFER_DELTA;
      thrown := Reserve(n);
      if thrown {
        HarmlessShift(old(Contents()), gptr);
      }
    }

    /** Appends one byte, growing the array when the put area is full.  It throws exactly when the buffer already
        holds `maxSize` bytes, and then nothing has changed. */
    method Overflow(c: IntType) returns (thrown: bool, r: IntType)
      requires Valid()
      modifies this, buffer
      ensures Valid() && (buffer == old(buffer) || fresh(buffer))
      ensures thrown <==> c.Char? && |old(Contents())| == maxSize as int
      ensures !thrown ==> Contents() == (if c.Char? then old(Contents()) + [c.c] else old(Contents())) && r == NotEof(c)
      ensures !thrown ==> r.Char? && (c.Char? ==> r == c)
      ensures !thrown && c.Char? ==>
                if old(pptr == epptr) then gptr == 0 && epptr == Max(old(epptr), Min(|old(Contents())| + 128, maxSize as int))
                else gptr == old(gptr) && Area() == old(Area())[1..]
      ensures thrown || c.Eof? ==>
                && View() == old(View()) && gptr == old(gptr) && egptr == old(egptr) && pbase == old(pbase)
                && pptr == old(pptr) && epptr == old(epptr) && buffer == old(buffer)
    {
      thrown, r := false, NotEof(c);
      if c.Char? {
        if pptr == epptr {
          thrown := Enlarge();
          if thrown {
            return true, Eof;
          }
        }
        Store(c.c);
        r := c;
      }
    }

    /** `std::streambuf::sbumpc`: takes one byte, refilling the get area through `underflow` when it is used up. */
    method Sbumpc() returns (r: IntType)
      requires Valid()
      modifies this
      ensures Valid() && buffer == old(buffer)
      ensures r == if old(Contents()) == [] then Eof else Char(old(Contents())[0])
      ensures View() == old(View()).Consume(1)
      ensures gptr == old(gptr) + Min(1, |old(Contents())|) && pptr == old(pptr) && epptr == old(epptr)
    {
      if gptr < egptr {
        r := Char(buffer[gptr]);
      } else {
        r := Underflow();
        if r.Eof? {
          return;
        }
      }
      gptr := gptr + 1;
    }

    /** `std::streambuf::sputc`: stores one byte, through `overflow` when the put area is full. */
    method Sputc(c: byte) returns (thrown: bool)
      requires Valid()
      modifies this, buffer
      ensures Valid() && (buffer == old(buffer) || fresh(buffer))
      ensures thrown <==> |old(Contents())| == maxSize as int
      ensures thrown ==> At() == old(At()) && buffer == old(buffer)
      ensures !thrown ==>
                && Contents() == old(Contents()) + [c]
                && if old(pptr == epptr) then gptr == 0 else At() == Place(old(gptr), Queue(Contents(), old(Area())[1..]))
      ensures old(pptr) < old(epptr) ==> pptr == old(pptr) + 1 && epptr == old(epptr)
    {
      if pptr < epptr {
        Store(c);
        thrown := false;
      } else {
        var r;
        thrown, r := Overflow(Char(c));
      }
    }

    /** `read_size_helper`: how much to ask for when at most `m` bytes are wanted.  Its subtractions are on `size_t`
        and are proved not to wrap. */
    function ReadSizeHelper(m: size_t): (r: size_t)
      requires Valid()
      reads this, buffer
      ensures r <= m && |Contents()| + r as int <= maxSize as int
      ensures m > 0 && |Contents()| < maxSize as int ==> r > 0
      ensures r as int <= 512 || |Contents()| + r as int <= capacity as int
      ensures r as int < Min(m as int, maxSize as int - |Contents()|) ==> r >= 512 && capacity as int <= |Contents()| + r as int
    {
      var spare := capacity - Size();
      var room := maxSize - Size();
      SizeMin(SizeMax(512, spare), SizeMin(m, room))
    }

    method PrepareForRead(m: size_t) returns (r: Option<Region>)
      requires Valid()
      modifies this, buffer
      ensures Valid() && (buffer == old(buffer) || fresh(buffer))
      ensures r.Some? && Contents() == old(Contents())
      ensures r.value.length <= m as int
      ensures r.value.length <= 512 || |old(Contents())| + r.value.length <= old(capacity) as int
      ensures m > 0 && |Contents()| < maxSize as int ==> r.value.length > 0
    {
      var n := ReadSizeHelper(m);
      r := Prepare(n);
    }
  }

  // ---------------------------------------------------------------------------------------------------------------
  // Runs: the array with its six offsets refines a plain byte queue with a writable area beside it.

  datatype Op =
    | DoPrepare(n: size_t)
    | DoFill(bytes: Bytes)
    | DoCommit(k: size_t)
    | DoConsume(k: size_t)
    | DoPut(c: byte)
    | DoGet
    | DoUnderflow
    | DoOverflowEof

  /** One operation that does not throw, on the plain queue. */
  ghost predicate Next(q: Queue, op: Op, q': Queue) {
    match op
    case DoPrepare(n) => if n as int <= |q.area| then q' == q else q'.data == q.data && n as int <= |q'.area|
    case DoFill(bytes) => q' == if |bytes| <= |q.area| then q.Fill(bytes) else q
    case DoCommit(k) => q' == q.Commit(k)
    case DoConsume(k) => q' == q.Consume(k)
    case DoPut(c) => q'.data == q.data + [c] && (q.area != [] ==> q'.area == q.area[1..])
    case DoGet => q' == q.Consume(1)
    case DoUnderflow => q' == q
    case DoOverflowEof => q' == q
  }

  /** Where the readable bytes start after it. */
  function StartAfter(s: Place, op: Op): nat {
    match op
    case DoPrepare(n) => if n as int <= |s.queue.area| then s.start else 0
    case DoPut(_) => if s.queue.area == [] then 0 else s.start
    case _ => s.start + |Removed(s, op)|
  }

  /** The operations that throw `std::length_error`. */
  predicate Throws(q: Queue, op: Op, maxSize: size_t) {
    match op
    case DoPrepare(n) => |q.data| + n as int > maxSize as int
    case DoPut(_) => |q.data| == maxSize as int
    case _ => false
  }

  /** What a throwing operation leaves: `prepare` has already moved the bytes. */
  function AfterThrow(s: Place, op: Op): Place {
    if op.DoPrepare? then s.(queue := Queue(Shifted(s.queue.data, s.start), s.queue.area)) else s
  }

  ghost predicate NextOn(s: Place, op: Op, s': Place, maxSize: size_t) {
    if Throws(s.queue, op, maxSize) then s' == AfterThrow(s, op)
    else Next(s.queue, op, s'.queue) && s'.start == StartAfter(s, op)
  }

  /** `states` are those passed through by the first `n` operations; none is overfilled. */
  ghost predicate IsRun(states: seq<Place>, ops: seq<Op>, n: nat, maxSize: size_t) {
    && n <= |ops| && n < |states|
    && (forall i | 0 <= i < n :: NextOn(states[i], ops[i], states[i + 1], maxSize))
    && (forall i | 0 <= i <= n :: |states[i].queue.data| <= maxSize as int)
  }

  /** `threw` says which of the first `n` operations threw. */
  ghost predicate ThrewWhere(threw: seq<bool>, states: seq<Place>, ops: seq<Op>, n: nat, maxSize: size_t)
    requires n <= |ops| && n <= |states|
  {
    |threw| == n && forall i | 0 <= i < n :: threw[i] <==> Throws(states[i].queue, ops[i], maxSize)
  }

  lemma NothingDone(states: seq<Place>, ops: seq<Op>, maxSize: size_t)
    requires |states| == 1 && |states[0].queue.data| <= maxSize as int
    ensures IsRun(states, ops, 0, maxSize) && ThrewWhere([], states, ops, 0, maxSize)
  {
  }

  lemma RunOneMore(states: seq<Place>, ops: seq<Op>, threw: seq<bool>, n: nat, maxSize: size_t, s: Place, thrown: bool)
    requires n < |ops| && |states| == n + 1
    requires IsRun(states, ops, n, maxSize) && ThrewWhere(threw, states, ops, n, maxSize)
    requires NextOn(states[n], ops[n], s, maxSize) && |s.queue.data| <= maxSize as int
    requires thrown <==> Throws(states[n].queue, ops[n], maxSize)
    ensures IsRun(states + [s], ops, n + 1, maxSize) && ThrewWhere(threw + [thrown], states + [s], ops, n + 1, maxSize)
  {
    hide NextOn, Throws;
  }

  /** `commit` and `consume` hand their amount to `pbump` and `gbump` as an `int`. */
  ghost predicate AmountFitsInt(op: Op) {
    op.DoCommit? || op.DoConsume? ==> (op.k as int) < 0x8000_0000
  }

  method Step(sb: Streambuf, op: Op) returns (thrown: bool)
    requires sb.Valid() && AmountFitsInt(op)
    modifies sb, sb.buffer
    ensures sb.Valid() && (sb.buffer == old(sb.buffer) || fresh(sb.buffer))
    ensures thrown <==> Throws(old(sb.At()).queue, op, sb.maxSize)
    ensures NextOn(old(sb.At()), op, sb.At(), sb.maxSize)
  {
    hide Shifted, Next;
    if op.DoPrepare? {
      thrown := StepPrepare(sb, op.n);
    } else if op.DoPut? {
      thrown := StepPut(sb, op.c);
    } else {
      thrown := false;
      StepSafe(sb, op);
    }
  }

  method StepPrepare(sb: Streambuf, n: size_t) returns (thrown: bool)
    requires sb.Valid()
    modifies sb, sb.buffer
    ensures sb.Valid() && (sb.buffer == old(sb.buffer) || fresh(sb.buffer))
    ensures thrown <==> Throws(old(sb.At()).queue, DoPrepare(n), sb.maxSize)
    ensures NextOn(old(sb.At()), DoPrepare(n), sb.At(), sb.maxSize)
  {
    hide Shifted;
    var r := sb.Prepare(n);
    thrown := r.None?;
  }

  method StepPut(sb: Streambuf, c: byte) returns (thrown: bool)
    requires sb.Valid()
    modifies sb, sb.buffer
    ensures sb.Valid() && (sb.buffer == old(sb.buffer) || fresh(sb.buffer))
    ensures thrown <==> Throws(old(sb.View()), DoPut(c), sb.maxSize)
    ensures NextOn(old(sb.At()), DoPut(c), sb.At(), sb.maxSize)
  {
    thrown := sb.Sputc(c);
  }

  method StepSafe(sb: Streambuf, op: Op)
    requires sb.Valid() && AmountFitsInt(op) && !op.DoPrepare? && !op.DoPut?
    modifies sb, sb.buffer
    ensures sb.Valid() && sb.buffer == old(sb.buffer)
    ensures Next(old(sb.View()), op, sb.View())
    ensures sb.gptr == old(sb.gptr) + |Removed(old(sb.At()), op)|
  {
    match op
    case DoFill(bytes) =>
      if |bytes| <= sb.epptr - sb.pptr {
        sb.Fill(bytes);
      }
    case DoCommit(k) => sb.Commit(k);
    case DoConsume(k) => sb.Consume(k);
    case DoGet => var _ := sb.Sbumpc();
    case DoUnderflow => var _ := sb.Underflow();
    case DoOverflowEof =>
      var _, _ := sb.Overflow(Eof);
  }

  /** Any sequence of operations, going on after those that throw, is a run from the old state to the new one, and
      exactly those operations throw of which the queue says so. */
  method Run(sb: Streambuf, ops: seq<Op>) returns (threw: seq<bool>, ghost states: seq<Place>)
    requires sb.Valid() && forall op | op in ops :: AmountFitsInt(op)
    modifies sb, sb.buffer
    ensures sb.Valid() && |states| == |ops| + 1 && IsRun(states, ops, |ops|, sb.maxSize)
    ensures states[0] == old(sb.At()) && states[|ops|] == sb.At()
    ensures ThrewWhere(threw, states, ops, |ops|, sb.maxSize)
  {
    hide NextOn, Throws, IsRun, ThrewWhere, AmountFitsInt, Streambuf.At, Streambuf.Contents;
    ghost var start := sb.At();
    NothingDone([start], ops, sb.maxSize);
    var done := 0;
    threw, states := [], [start];
    while done < |ops|
      invariant done <= |ops| && sb.Valid() && (sb.buffer == old(sb.buffer) || fresh(sb.buffer))
      invariant |states| == done + 1 && IsRun(states, ops, done, sb.maxSize)
      invariant states[0] == start && states[done] == sb.At()
      invariant ThrewWhere(threw, states, ops, done, sb.maxSize)
    {
      var thrown := Step(sb, ops[done]);
      ghost var now := sb.At();
      RunOneMore(states, ops, threw, done, sb.maxSize, now, thrown);
      threw, states := threw + [thrown], states + [now];
      done := done + 1;
    }
  }

  /** The bytes one operation appends to the queue, and the bytes it removes. */
  function Appended(s: Place, op: Op, maxSize: size_t): Bytes {
    match op
    case DoCommit(k) => s.queue.area[..Min(k as int, |s.queue.area|)]
    case DoPut(c) => if Throws(s.queue, op, maxSize) then [] else [c]
    case _ => []
  }

  function Removed(s: Place, op: Op): Bytes {
    match op
    case DoConsume(k) => s.queue.data[..Min(k as int, |s.queue.data|)]
    case DoGet => s.queue.data[..Min(1, |s.queue.data|)]
    case _ => []
  }

  function AllAppended(states: seq<Place>, ops: seq<Op>, n: nat, maxSize: size_t): Bytes
    requires n <= |ops| && n <= |states|
  {
    if n == 0 then [] else AllAppended(states, ops, n - 1, maxSize) + Appended(states[n - 1], ops[n - 1], maxSize)
  }

  function AllRemoved(states: seq<Place>, ops: seq<Op>, n: nat): Bytes
    requires n <= |ops| && n <= |states|
  {
    if n == 0 then [] else AllRemoved(states, ops, n - 1) + Removed(states[n - 1], ops[n - 1])
  }

  /** First in, first out: what was there and was put or committed, in order, is what was consumed, in order, followed
      by what is still readable. */
  ghost predicate Conserved(states: seq<Place>, ops: seq<Op>, n: nat, maxSize: size_t)
    requires n <= |ops| && n < |states|
  {
    states[0].queue.data + AllAppended(states, ops, n, maxSize) == AllRemoved(states, ops, n) + states[n].queue.data
  }

  /** The operation is no throwing `prepare` whose early move changes a readable byte. */
  predicate Harmless(s: Place, op: Op, maxSize: size_t) {
    op.DoPrepare? && Throws(s.queue, op, maxSize) ==> Shifted(s.queue.data, s.start) == s.queue.data
  }

  lemma StepConserved(s: Place, op: Op, s': Place, maxSize: size_t)
    requires NextOn(s, op, s', maxSize)
    ensures Harmless(s, op, maxSize) <==> s.queue.data + Appended(s, op, maxSize) == Removed(s, op) + s'.queue.data
  {
    hide Shifted, Next;
    assert s.queue.data + [] == s.queue.data && [] + s'.queue.data == s'.queue.data;
    if !Throws(s.queue, op, maxSize) {
      NextConserved(s, op, s'.queue, maxSize);
    }
  }

  lemma NextConserved(s: Place, op: Op, q': Queue, maxSize: size_t)
    requires !Throws(s.queue, op, maxSize) && Next(s.queue, op, q')
    ensures s.queue.data + Appended(s, op, maxSize) == Removed(s, op) + q'.data
  {
    assert s.queue.data + [] == s.queue.data && [] + q'.data == q'.data;
  }

  lemma StepKeepsConserved(states: seq<Place>, ops: seq<Op>, n: nat, maxSize: size_t)
    requires IsRun(states, ops, n + 1, maxSize) && Conserved(states, ops, n, maxSize)
    ensures Conserved(states, ops, n + 1, maxSize) <==> Harmless(states[n], ops[n], maxSize)
  {
    hide NextOn, Appended, Removed, Harmless;
    var s, op, s' := states[n], ops[n], states[n + 1];
    assert NextOn(s, op, s', maxSize);
    StepConserved(s, op, s', maxSize);
    var start, ins, outs := states[0].queue.data, AllAppended(states, ops, n, maxSize), AllRemoved(states, ops, n);
    var in', out' := Appended(s, op, maxSize), Removed(s, op);
    assert start + (ins + in') == (start + ins) + in';
    assert (outs + s.queue.data) + in' == outs + (s.queue.data + in');
    assert (outs + out') + s'.queue.data == outs + (out' + s'.queue.data);
    SamePrefix(outs, s.queue.data + in', out' + s'.queue.data);
  }

  lemma SamePrefix(a: Bytes, b: Bytes, c: Bytes)
    ensures a + b == a + c <==> b == c
  {
    assert (a + b)[|a|..] == b && (a + c)[|a|..] == c;
  }

  /** Over every run, at every point of it, the queue is first in, first out exactly as long as every throwing `prepare`
      is harmless. */
  lemma {:induction false} QueueConservedIff(states: seq<Place>, ops: seq<Op>, n: nat, maxSize: size_t)
    requires IsRun(states, ops, n, maxSize)
    ensures (forall i | 0 <= i <= n :: Conserved(states, ops, i, maxSize))
       <==> (forall i | 0 <= i < n :: Harmless(states[i], ops[i], maxSize))
  {
    hide NextOn, Harmless, Conserved;
    if n == 0 {
      NothingYetConserved(states, ops, maxSize);
    } else {
      QueueConservedIff(states, ops, n - 1, maxSize);
      if Conserved(states, ops, n - 1, maxSize) {
        StepKeepsConserved(states, ops, n - 1, maxSize);
      }
    }
  }

  lemma NothingYetConserved(states: seq<Place>, ops: seq<Op>, maxSize: size_t)
    requires |states| > 0
    ensures Conserved(states, ops, 0, maxSize)
  {
    assert states[0].queue.data + [] == [] + states[0].queue.data;
  }

  /** What a caller can look at before the call: nothing is lost if each `prepare` that throws finds the get position
      at the start of the array or no more bytes than that position. */
  lemma QueueConserved(states: seq<Place>, ops: seq<Op>, n: nat, maxSize: size_t)
    requires IsRun(states, ops, n, maxSize)
    requires forall i | 0 <= i < n && ops[i].DoPrepare? && Throws(states[i].queue, ops[i], maxSize) ::
               states[i].start == 0 || |states[i].queue.data| <= states[i].start
    ensures Conserved(states, ops, n, maxSize)
  {
    forall i | 0 <= i < n
      ensures Harmless(states[i], ops[i], maxSize)
    {
      ShiftedKeepsAllContents(|states[i].queue.data|, states[i].start);
    }
    QueueConservedIff(states, ops, n, maxSize);
  }

  /** A throwing `prepare` that destroys a readable byte: in a buffer for three bytes, "xab" is put, one byte is taken,
      and room for two more is asked for; "ab" becomes "bb". */
  method ThrowingPrepareDamages() returns (sb: Streambuf, ghost before: Bytes, r: Option<Region>)
    ensures sb.Valid() && sb.maxSize == 3 && sb.gptr == 1
    ensures before == [97, 98] && r.None? && sb.Contents() == [98, 98]
  {
    hide Shifted;
    sb := new Streambuf(3);
    var thrown := sb.Sputc(120);
    thrown := sb.Sputc(97);
    thrown := sb.Sputc(98);
    assert sb.Contents() == [120, 97, 98];
    var c := sb.Sbumpc();
    before := sb.Contents();
    assert before == [97, 98];
    r := sb.Prepare(2);
    ShiftedTwo(97, 98);
  }

  lemma ShiftedTwo(a: byte, b: byte)
    ensures Shifted([a, b], 1) == [b, b]
  {
  }
}

/** The allocator that `asio::any_completion_handler` lends out: over-aligned blocks, with the distance back to the
    raw block hidden in eight bytes behind the user's (include/asio/any_completion_handler.hpp:131-176). */
module HandlerMemory {
  import opened Common
  import Words

  /** `sizeof(std::ptrdiff_t)`. */
  const SLOT: nat := 8

  const SIZE_LIMIT: nat := 0x1_0000_0000_0000_0000

  /** Arithmetic on `std::size_t` as the code does it, wrapping. */
  function Wrap(x: int): nat {
    x % SIZE_LIMIT
  }

  /** The object representation of a `std::ptrdiff_t`, least significant byte first. */
  function ToBytes(n: nat, width: nat): (s: Bytes)
    ensures |s| == width
  {
    if width == 0 then [] else [(n % 256) as byte] + ToBytes(n / 256, width - 1)
  }

  function FromBytes(s: Bytes): nat {
    if s == [] then 0 else s[0] as int + 256 * FromBytes(s[1..])
  }

  function Limit(width: nat): nat {
    if width == 0 then 1 else 256 * Limit(width - 1)
  }

  lemma {:induction false} FromToBytes(n: nat, width: nat)
    requires n < Limit(width)
    ensures FromBytes(ToBytes(n, width)) == n
  {
    if width > 0 {
      FromToBytes(n / 256, width - 1);
      Words.ByteRoundTrip(n % 256);
      assert ToBytes(n, width)[1..] == ToBytes(n / 256, width - 1);
    }
  }

  /** How far `std::align` has to advance `base` to reach a multiple of `align`. */
  function Adjustment(base: nat, align: nat): nat
    requires align > 0
  {
    (align - base % align) % align
  }

  lemma AdjustmentAligns(base: nat, align: nat)
    requires align > 0
    ensures (base + Adjustment(base, align)) % align == 0
    ensures Adjustment(base, align) < align
  {
    var r, q := base % align, base / align;
    assert base == q * align + r;
    if r == 0 {
      MultipleMod(1, align);
    } else {
      SmallMod(align - r, align);
      OneMoreTimes(q, align);
      MultipleMod(q + 1, align);
    }
  }

  lemma SmallMod(x: nat, align: nat)
    requires x < align
    ensures x % align == x
  {
  }

  lemma OneMoreTimes(q: nat, align: nat)
    ensures (q + 1) * align == q * align + align
  {
  }

  lemma MultipleMod(q: nat, align: nat)
    requires align > 0
    ensures (q * align) % align == 0
  {
    var x := q * align;
    var d := q - x / align;
    assert x == align * (x / align) + x % align;
    assert d * align == x % align;
    MultipleTooBig(d, align);
    MultipleTooBig(-d, align);
  }

  lemma MultipleTooBig(d: int, align: nat)
    ensures d >= 1 ==> d * align >= align
    ensures (-d) * align == -(d * align)
  {
  }

  /** `std::align`, [ptr.align] of ISO C++: the first aligned address with `size` bytes inside the space, if any. */
  function Align(align: nat, size: nat, base: nat, space: nat): Option<nat>
    requires align > 0
  {
    var adj := Adjustment(base, align);
    if space < size + adj then None else Some(base + adj)
  }

  /** The code asks for `size + align - 1` bytes of room, so `align` fails, and `bad_alloc` is thrown, exactly when
      that sum wraps around. */
  lemma AlignFailsIffSumWraps(align: nat, size: nat, base: nat)
    requires 0 < align < SIZE_LIMIT && size < SIZE_LIMIT
    ensures Align(align, size, base, Wrap(size + align - 1)).None? <==> size + align - 1 >= SIZE_LIMIT
  {
    AdjustmentAligns(base, align);
    if size + align - 1 >= SIZE_LIMIT {
      assert Wrap(size + align - 1) == size + align - 1 - SIZE_LIMIT;
    }
  }

  /** `detail::align` with the space that the allocator leaves for it. */
  method AlignInSpace(align: nat, size: nat, base: nat, space: nat) returns (r: Option<nat>)
    requires 0 < align < SIZE_LIMIT && size < SIZE_LIMIT && space == Wrap(size + align - 1)
    ensures r.None? <==> size + align - 1 >= SIZE_LIMIT
    ensures r.Some? ==> base <= r.value < base + align && r.value % align == 0
  {
    AlignFailsIffSumWraps(align, size, base);
    AdjustmentAligns(base, align);
    r := Align(align, size, base, space);
  }

  /** The user's bytes and the slot always fit the block that was asked for, unless adding the slot's eight bytes to
      the request is what wraps around. */
  lemma RequestCoversSlotIffNoWrap(align: nat, size: nat)
    requires 0 < align < SIZE_LIMIT && size + align - 1 < SIZE_LIMIT
    ensures (forall base: nat :: Adjustment(base, align) + size + SLOT <= Wrap(Wrap(size + align - 1) + SLOT))
       <==> size + align - 1 + SLOT < SIZE_LIMIT
  {
    if size + align - 1 + SLOT < SIZE_LIMIT {
      forall base: nat
        ensures Adjustment(base, align) + size + SLOT <= Wrap(Wrap(size + align - 1) + SLOT)
      {
        AdjustmentAligns(base, align);
      }
    } else {
      assert Wrap(Wrap(size + align - 1) + SLOT) < SLOT;
      assert Adjustment(0, align) + size + SLOT >= SLOT;
    }
  }

  datatype Block = Block(base: nat, size: nat, align: nat)

  predicate Disjoint(b1: nat, n1: nat, b2: nat, n2: nat) {
    b1 + n1 <= b2 || b2 + n2 <= b1
  }

  function Total(b: Block): nat {
    b.size + b.align + 7
  }

  type Store = map<nat, byte>

  /** The eight bytes at `at` are the object representation of `off`. */
  ghost predicate SlotHolds(mem: Store, at: nat, off: nat) {
    forall a | at <= a < at + SLOT :: a in mem && mem[a] == ToBytes(off, SLOT)[a - at]
  }

  /** The block behind user address `p`: aligned, with the user's bytes and the slot disjoint inside the raw block. */
  ghost predicate BlockOk(mem: Store, raw: map<nat, nat>, p: nat, b: Block) {
    && 0 < b.align <= 0x8000_0000_0000_0000 && Total(b) < SIZE_LIMIT
    && p % b.align == 0
    && 0 < b.base <= p < b.base + b.align
    && b.base in raw && raw[b.base] == Total(b)
    && p + b.size + SLOT <= b.base + Total(b)
    && SlotHolds(mem, p + b.size, p - b.base)
  }

  ghost predicate RawDisjoint(raw: map<nat, nat>) {
    forall b, c {:trigger Disjoint(b, raw[b], c, raw[c])} | b in raw && c in raw && b != c :: Disjoint(b, raw[b], c, raw[c])
  }

  ghost predicate RawOk(raw: map<nat, nat>, top: nat) {
    RawDisjoint(raw) && forall b | b in raw :: 0 < b && b + raw[b] <= top
  }

  /** A block of `count` bytes at `base` that the underlying allocator may hand out. */
  ghost predicate IsFresh(raw: map<nat, nat>, base: nat, count: nat) {
    0 < base && base !in raw && forall b | b in raw :: Disjoint(b, raw[b], base, count)
  }

  ghost predicate LiveOk(mem: Store, raw: map<nat, nat>, live: map<nat, Block>) {
    && (forall p {:trigger BlockOk(mem, raw, p, live[p])} | p in live :: BlockOk(mem, raw, p, live[p]))
    && (forall p, q | p in live && q in live && p != q :: live[p].base != live[q].base)
  }

  ghost predicate AgreeOutside(mem: Store, mem': Store, base: nat, count: nat) {
    forall a | a in mem && !(base <= a < base + count) :: a in mem' && mem'[a] == mem[a]
  }

  /** Whatever happens to the bytes of one raw block, the live blocks behind the others stay as they were. */
  lemma BlockKept(mem: Store, mem': Store, raw: map<nat, nat>, raw': map<nat, nat>, p: nat, b: Block, base: nat, count: nat)
    requires BlockOk(mem, raw, p, b) && AgreeOutside(mem, mem', base, count)
    requires Disjoint(b.base, Total(b), base, count)
    requires b.base in raw' && raw'[b.base] == raw[b.base]
    ensures BlockOk(mem', raw', p, b)
  {
    var at := p + b.size;
    forall a | at <= a < at + SLOT
      ensures a in mem' && mem'[a] == ToBytes(p - b.base, SLOT)[a - at]
    {
      assert a in mem && !(base <= a < base + count);
    }
  }

  class Memory {
    /** The bytes that have been written. */
    var mem: Store
    /** The blocks handed out by the underlying allocator: base address to byte count. */
    var raw: map<nat, nat>
    /** The user's live blocks by address, with the size and alignment the user asked for and will hand back. */
    var live: map<nat, Block>
    /** All raw blocks lie below this address. */
    ghost var top: nat

    ghost predicate Valid()
      reads this
    {
      RawOk(raw, top) && LiveOk(mem, raw, live)
    }

    ghost function State(): MemState
      reads this
    {
      MemState(mem, raw, live)
    }

    constructor ()
      ensures Valid() && State() == MemState(map[], map[], map[])
    {
      mem, raw, live, top := map[], map[], map[], 1;
    }

    /** The underlying allocator: any non-null block that overlaps no live one. */
    method RawAllocate(count: nat) returns (base: nat)
      requires RawOk(raw, top)
      modifies this`raw, this`top
      ensures RawOk(raw, top)
      ensures IsFresh(old(raw), base, count) && raw == old(raw)[base := count]
    {
      ghost var candidate := top + 1;
      assert candidate !in raw && forall b | b in raw :: Disjoint(b, raw[b], candidate, count);
      var chosen: nat :| chosen > 0 && chosen !in raw && forall b | b in raw :: Disjoint(b, raw[b], chosen, count);
      base := chosen;
      raw := raw[base := count];
      top := Max(top, base + count);
    }

    /** `None` is `std::bad_alloc`, thrown exactly when the space computation wraps; the raw block is then leaked.
        A request of which only the slot's eight bytes wrap gets a raw block that ends before its slot. */
    method Allocate(size: nat, align: nat) returns (r: Option<nat>, ghost base': nat)
      requires Valid()
      requires 0 < align <= 0x8000_0000_0000_0000 && size < SIZE_LIMIT
      modifies this
      ensures Valid() <==> !Overruns(size, align)
      ensures r.None? <==> size + align - 1 >= SIZE_LIMIT
      ensures var count := Wrap(Wrap(size + align - 1) + SLOT);
              IsFresh(old(raw), base', count) && raw == old(raw)[base' := count]
      ensures r.None? ==> live == old(live) && mem == old(mem)
      ensures r.Some? ==>
                && base' <= r.value < base' + align && r.value % align == 0
                && live == old(live)[r.value := Block(base', size, align)]
                && mem == StoreBytes(old(mem), r.value + size, ToBytes(r.value - base', SLOT))
      ensures r.Some? && !Overruns(size, align) ==> r.value !in old(live) && raw[base'] == size + align + 7
      ensures Overruns(size, align) ==> raw[base'] < SLOT && base' + raw[base'] < r.value + size + SLOT
    {
      hide StoreBytes, ToBytes, LiveOk, RawOk, Wrap;
      var space := Wrap(size + align - 1);
      var base := RawAllocate(Wrap(space + SLOT));
      base' := base;
      r := AlignInSpace(align, size, base, space);
      if r.Some? {
        var p := r.value;
        LendOkIff(mem, old(raw), raw, live, p, Block(base, size, align));
        mem := StoreBytes(mem, p + size, ToBytes(p - base, SLOT));
        live := live[p := Block(base, size, align)];
      } else {
        OthersKept(mem, mem, old(raw), raw, live, base, raw[base]);
      }
    }

    /** Any write the user makes inside a live block. */
    method Write(p: nat, i: nat, b: byte)
      requires Valid() && p in live && i < live[p].size
      modifies this`mem
      ensures Valid()
      ensures mem == old(mem)[p + i := b]
    {
      WriteOk(mem, raw, live, p, i, b);
      mem := mem[p + i := b];
    }

    /** Reads the hidden slot back and returns to the underlying allocator exactly the block it handed out. */
    method Deallocate(p: nat, size: nat, align: nat) returns (returned: Option<(nat, nat)>)
      requires Valid()
      requires p == 0 || (p in live && live[p].size == size && live[p].align == align)
      modifies this
      ensures Valid()
      ensures mem == old(mem)
      ensures p == 0 ==> returned.None? && live == old(live) && raw == old(raw)
      ensures p != 0 ==>
                && old(live)[p].base in old(raw)
                && returned == Some((old(live)[p].base, old(raw)[old(live)[p].base]))
                && raw == old(raw) - {old(live)[p].base}
                && live == old(live) - {p}
    {
      if p == 0 {
        return None;
      }
      hide ToBytes, FromBytes, SlotHolds;
      assert BlockOk(mem, raw, p, live[p]);
      SlotReadBack(mem, raw, p, live[p]);
      RequestExact(size, align);
      var base := p - FromBytes(LoadBytes(mem, p + size, SLOT));
      returned := Some((base, Wrap(Wrap(size + align - 1) + SLOT)));
      LiveReduced(mem, raw, live, p);
      raw := raw - {base};
      live := live - {p};
    }
  }

  /** Only adding the slot's eight bytes to the request wraps around. */
  predicate Overruns(size: nat, align: nat) {
    size + align - 1 < SIZE_LIMIT <= size + align + 7
  }

  /** `std::memcpy` to address `at`. */
  function StoreBytes(mem: Store, at: nat, bytes: Bytes): (mem': Store)
    ensures forall a | at <= a < at + |bytes| :: a in mem' && mem'[a] == bytes[a - at]
    ensures AgreeOutside(mem, mem', at, |bytes|)
  {
    if bytes == [] then mem else
    var n := |bytes| - 1;
    StoreBytes(mem, at, bytes[..n])[at + n := bytes[n]]
  }

  /** `std::memcpy` from address `at`. */
  function LoadBytes(mem: Store, at: nat, n: nat): Bytes {
    seq(n, k requires 0 <= k < n => if at + k in mem then mem[at + k] else 0)
  }

  lemma RequestExact(size: nat, align: nat)
    requires 0 < align && size + align + 7 < SIZE_LIMIT
    ensures Wrap(Wrap(size + align - 1) + SLOT) == size + align + 7
  {
  }

  lemma OverrunRequest(size: nat, align: nat)
    requires Overruns(size, align) && 0 < align
    ensures Wrap(Wrap(size + align - 1) + SLOT) == size + align + 7 - SIZE_LIMIT
  {
  }

  lemma TooLongNotOk(mem: Store, raw: map<nat, nat>, live: map<nat, Block>, p: nat)
    requires p in live && Total(live[p]) >= SIZE_LIMIT
    ensures !LiveOk(mem, raw, live)
  {
    assert !BlockOk(mem, raw, p, live[p]);
  }

  /** The distance that `Deallocate` reads back leads to the raw block. */
  lemma SlotReadBack(mem: Store, raw: map<nat, nat>, p: nat, b: Block)
    requires BlockOk(mem, raw, p, b)
    ensures FromBytes(LoadBytes(mem, p + b.size, SLOT)) == p - b.base
  {
    assert LoadBytes(mem, p + b.size, SLOT) == ToBytes(p - b.base, SLOT);
    SlotRange(p - b.base);
  }

  /** A write inside one live block harms neither its own slot nor any other block. */
  lemma WriteOk(mem: Store, raw: map<nat, nat>, live: map<nat, Block>, p: nat, i: nat, v: byte)
    requires LiveOk(mem, raw, live) && RawDisjoint(raw) && p in live && i < live[p].size
    ensures LiveOk(mem[p + i := v], raw, live)
  {
    var mem' := mem[p + i := v];
    assert BlockOk(mem, raw, p, live[p]);
    forall q | q in live
      ensures BlockOk(mem', raw, q, live[q])
    {
      assert BlockOk(mem, raw, q, live[q]);
      if q != p {
        assert Disjoint(live[q].base, raw[live[q].base], live[p].base, raw[live[p].base]);
        BlockKept(mem, mem', raw, raw, q, live[q], live[p].base, Total(live[p]));
      }
    }
  }

  /** No byte of one live block, user's or hidden, is a byte of another. */
  lemma LiveBlocksDisjoint(mem: Store, raw: map<nat, nat>, live: map<nat, Block>, p: nat, q: nat)
    requires RawDisjoint(raw) && LiveOk(mem, raw, live) && p in live && q in live && p != q
    ensures Disjoint(p, live[p].size + SLOT, q, live[q].size + SLOT)
  {
    assert BlockOk(mem, raw, p, live[p]) && BlockOk(mem, raw, q, live[q]);
    assert Disjoint(live[p].base, raw[live[p].base], live[q].base, raw[live[q].base]);
  }

  /** Writing the slot behind a fresh block at aligned address `p` makes it a live block and harms no other. */
  lemma LendOk(mem: Store, raw: map<nat, nat>, raw': map<nat, nat>, live: map<nat, Block>, p: nat, b: Block)
    requires LiveOk(mem, raw, live)
    requires 0 < b.base <= p < b.base + b.align <= b.base + 0x8000_0000_0000_0000 && Total(b) < SIZE_LIMIT
    requires p % b.align == 0
    requires b.base !in raw && raw' == raw[b.base := Total(b)]
    requires forall c | c in raw :: Disjoint(c, raw[c], b.base, Total(b))
    ensures var mem' := StoreBytes(mem, p + b.size, ToBytes(p - b.base, SLOT));
            p !in live && LiveOk(mem', raw', live[p := b])
  {
    var mem' := StoreBytes(mem, p + b.size, ToBytes(p - b.base, SLOT));
    OthersKept(mem, mem', raw, raw', live, b.base, Total(b));
    LentBlockOk(mem, raw', p, b);
    BasesAreRaw(mem, raw, live);
    LiveExtended(mem', raw, raw', live, p, b);
  }

  /** Lending `p` out for the block that the code asks for is right unless only the slot's bytes wrap. */
  lemma LendOkIff(mem: Store, raw: map<nat, nat>, raw': map<nat, nat>, live: map<nat, Block>, p: nat, b: Block)
    requires LiveOk(mem, raw, live)
    requires 0 < b.align <= 0x8000_0000_0000_0000 && b.size + b.align - 1 < SIZE_LIMIT
    requires b.base <= p < b.base + b.align && p % b.align == 0
    requires var count := Wrap(Wrap(b.size + b.align - 1) + SLOT);
             IsFresh(raw, b.base, count) && raw' == raw[b.base := count]
    ensures var mem' := StoreBytes(mem, p + b.size, ToBytes(p - b.base, SLOT));
            LiveOk(mem', raw', live[p := b]) <==> !Overruns(b.size, b.align)
    ensures !Overruns(b.size, b.align) ==> p !in live && raw'[b.base] == Total(b)
    ensures Overruns(b.size, b.align) ==> raw'[b.base] < SLOT && b.base + raw'[b.base] < p + b.size + SLOT
  {
    hide StoreBytes, ToBytes, LiveOk, Wrap;
    if Overruns(b.size, b.align) {
      OverrunRequest(b.size, b.align);
      TooLongNotOk(StoreBytes(mem, p + b.size, ToBytes(p - b.base, SLOT)), raw', live[p := b], p);
    } else {
      RequestExact(b.size, b.align);
      LendOk(mem, raw, raw', live, p, b);
    }
  }

  lemma LentBlockOk(mem: Store, raw: map<nat, nat>, p: nat, b: Block)
    requires 0 < b.base <= p < b.base + b.align <= b.base + 0x8000_0000_0000_0000 && Total(b) < SIZE_LIMIT
    requires p % b.align == 0 && b.base in raw && raw[b.base] == Total(b)
    ensures BlockOk(StoreBytes(mem, p + b.size, ToBytes(p - b.base, SLOT)), raw, p, b)
  {
  }

  lemma BasesAreRaw(mem: Store, raw: map<nat, nat>, live: map<nat, Block>)
    requires LiveOk(mem, raw, live)
    ensures forall q | q in live :: live[q].base in raw
  {
    forall q | q in live
      ensures live[q].base in raw
    {
      assert BlockOk(mem, raw, q, live[q]);
    }
  }

  lemma LiveExtended(mem: Store, raw: map<nat, nat>, raw': map<nat, nat>, live: map<nat, Block>, p: nat, b: Block)
    requires LiveOk(mem, raw', live) && BlockOk(mem, raw', p, b)
    requires b.base !in raw && raw' == raw[b.base := Total(b)]
    requires forall q | q in live :: live[q].base in raw
    requires forall c | c in raw :: Disjoint(c, raw[c], b.base, Total(b))
    ensures p !in live && LiveOk(mem, raw', live[p := b])
  {
    assert forall q | q in live :: BlockOk(mem, raw', q, live[q]) && Disjoint(live[q].base, raw[live[q].base], b.base, Total(b));
  }

  lemma LiveReduced(mem: Store, raw: map<nat, nat>, live: map<nat, Block>, p: nat)
    requires LiveOk(mem, raw, live) && p in live
    ensures LiveOk(mem, raw - {live[p].base}, live - {p})
  {
    var raw', live' := raw - {live[p].base}, live - {p};
    forall q | q in live'
      ensures BlockOk(mem, raw', q, live'[q])
    {
      assert BlockOk(mem, raw, q, live[q]);
    }
  }

  lemma SlotRange(off: nat)
    requires off < 0x8000_0000_0000_0000
    ensures FromBytes(ToBytes(off, SLOT)) == off
  {
    assert Limit(4) == 0x1_0000_0000;
    assert Limit(8) == SIZE_LIMIT;
    FromToBytes(off, SLOT);
  }

  lemma OthersKept(mem: Store, mem': Store, raw: map<nat, nat>, raw': map<nat, nat>, live: map<nat, Block>, base: nat, count: nat)
    requires LiveOk(mem, raw, live) && AgreeOutside(mem, mem', base, count)
    requires base !in raw && raw' == raw[base := count]
    requires forall b | b in raw :: Disjoint(b, raw[b], base, count)
    ensures LiveOk(mem', raw', live)
  {
    forall q | q in live
      ensures BlockOk(mem', raw', q, live[q])
    {
      assert BlockOk(mem, raw, q, live[q]);
      BlockKept(mem, mem', raw, raw', q, live[q], base, count);
    }
  }

  // ---------------------------------------------------------------------------------------------------------------
  // Runs

  datatype MemState = MemState(mem: Store, raw: map<nat, nat>, live: map<nat, Block>)

  const NOTHING_ALLOCATED := MemState(map[], map[], map[])

  /** `DoWrite` outside the live blocks and `DoDeallocate` of an address that is not lent out are not made. */
  datatype Op = DoAllocate(size: nat, align: nat) | DoWrite(p: nat, i: nat, b: byte) | DoDeallocate(p: nat)

  /** What an operation had to do with the underlying allocator. */
  datatype Event =
    | Obtained(p: nat, base: nat, count: nat)
    | Leaked(base: nat, count: nat)
    | Returned(p: nat, base: nat, count: nat)
    | Neither

  predicate InRange(op: Op) {
    op.DoAllocate? ==> 0 < op.align <= 0x8000_0000_0000_0000 && op.size < SIZE_LIMIT && !Overruns(op.size, op.align)
  }

  predicate Fails(op: Op) {
    op.DoAllocate? && op.size + op.align - 1 >= SIZE_LIMIT
  }

  /** The underlying allocator is free in the address it hands out; nothing else about an event is. */
  ghost predicate Fits(s: MemState, op: Op, e: Event) {
    match op
    case DoAllocate(size, align) =>
      if Fails(op) then
        e.Leaked? && e.count == Wrap(size + align + 7) && IsFresh(s.raw, e.base, e.count)
      else
        && e.Obtained? && e.count == size + align + 7 && IsFresh(s.raw, e.base, e.count)
        && e.p !in s.live && e.base <= e.p < e.base + align && e.p % align == 0
    case DoWrite(_, _, _) => e == Neither
    case DoDeallocate(p) => e == if p in s.live then Returned(p, s.live[p].base, Total(s.live[p])) else Neither
  }

  function Apply(s: MemState, op: Op, e: Event): MemState {
    match op
    case DoAllocate(size, align) =>
      if e.Obtained? then
        MemState(StoreBytes(s.mem, e.p + size, ToBytes(Max(e.p, e.base) - e.base, SLOT)), s.raw[e.base := e.count],
                 s.live[e.p := Block(e.base, size, align)])
      else if e.Leaked? then s.(raw := s.raw[e.base := e.count])
      else s
    case DoWrite(p, i, b) => if p in s.live && i < s.live[p].size then s.(mem := s.mem[p + i := b]) else s
    case DoDeallocate(p) =>
      if p in s.live then s.(raw := s.raw - {s.live[p].base}, live := s.live - {p}) else s
  }

  function After(ops: seq<Op>, events: seq<Event>, n: nat): MemState
    requires n <= |ops| && n <= |events|
  {
    if n == 0 then NOTHING_ALLOCATED else Apply(After(ops, events, n - 1), ops[n - 1], events[n - 1])
  }

  /** The events belong to a run of the operations from a memory in which nothing is allocated. */
  ghost predicate IsRun(ops: seq<Op>, events: seq<Event>) {
    && |events| == |ops|
    && forall k {:trigger ops[k]} | 0 <= k < |ops| :: InRange(ops[k]) && Fits(After(ops, events, k), ops[k], events[k])
  }

  ghost predicate Sound(s: MemState) {
    RawDisjoint(s.raw) && LiveOk(s.mem, s.raw, s.live)
  }

  lemma ApplySound(s: MemState, op: Op, e: Event)
    requires Sound(s) && InRange(op) && Fits(s, op, e)
    ensures Sound(Apply(s, op, e))
  {
    hide StoreBytes, ToBytes, BlockOk;
    match op
    case DoAllocate(size, align) =>
      if Fails(op) {
        OthersKept(s.mem, s.mem, s.raw, Apply(s, op, e).raw, s.live, e.base, e.count);
      } else {
        LendOk(s.mem, s.raw, Apply(s, op, e).raw, s.live, e.p, Block(e.base, size, align));
      }
    case DoWrite(p, i, b) => if p in s.live && i < s.live[p].size { WriteOk(s.mem, s.raw, s.live, p, i, b); }
    case DoDeallocate(p) => if p in s.live { LiveReduced(s.mem, s.raw, s.live, p); }
  }

  lemma {:induction false} RunSound(ops: seq<Op>, events: seq<Event>, n: nat)
    requires IsRun(ops, events) && n <= |ops|
    ensures Sound(After(ops, events, n))
  {
    hide Fits, Apply;
    if n > 0 {
      RunSound(ops, events, n - 1);
      ApplySound(After(ops, events, n - 1), ops[n - 1], events[n - 1]);
    }
  }

  predicate IsLive(s: MemState, p: nat, b: Block) {
    p in s.live && s.live[p] == b
  }

  predicate IsRaw(s: MemState, base: nat, count: nat) {
    base in s.raw && s.raw[base] == count
  }

  /** What the event alone says of the step. */
  lemma StepEffect(s: MemState, op: Op, e: Event)
    requires InRange(op) && Fits(s, op, e)
    ensures var s' := Apply(s, op, e);
            match e
            case Obtained(p, base, count) =>
              && op.DoAllocate? && count == op.size + op.align + 7 && base !in s.raw && p !in s.live
              && s'.live == s.live[p := Block(base, op.size, op.align)] && s'.raw == s.raw[base := count]
            case Leaked(base, count) => Fails(op) && base !in s.raw && s'.live == s.live && s'.raw == s.raw[base := count]
            case Returned(p, base, count) =>
              && IsLive(s, p, s.live[p]) && base == s.live[p].base && count == Total(s.live[p])
              && s'.live == s.live - {p} && s'.raw == s.raw - {base}
            case Neither => s'.live == s.live && s'.raw == s.raw
    ensures Fails(op) <==> e.Leaked?
  {
  }

  predicate About(e: Event, p: nat) {
    (e.Obtained? || e.Returned?) && e.p == p
  }

  /** Event `j` lent `p` out for block `b`, and none of the later ones before `n` is about `p`. */
  ghost predicate Lent(ops: seq<Op>, events: seq<Event>, j: nat, n: nat, p: nat, b: Block)
    requires n <= |ops| && n <= |events|
  {
    && j < n && ops[j] == DoAllocate(b.size, b.align) && events[j] == Obtained(p, b.base, Total(b))
    && forall k | j < k < n :: !About(events[k], p)
  }

  /** Event `j` got a block from the underlying allocator, and none of the later ones before `n` gave it back. */
  ghost predicate Kept(events: seq<Event>, j: nat, n: nat, base: nat, count: nat)
    requires n <= |events|
  {
    && j < n && (events[j] == Leaked(base, count) || (events[j].Obtained? && events[j].base == base && events[j].count == count))
    && forall k | j < k < n :: !(events[k].Returned? && events[k].base == base)
  }

  lemma {:induction false} LentIsLive(ops: seq<Op>, events: seq<Event>, j: nat, n: nat, p: nat, b: Block)
    requires IsRun(ops, events) && n <= |ops| && Lent(ops, events, j, n, p, b)
    ensures IsLive(After(ops, events, n), p, b)
  {
    hide Fits, Apply;
    StepEffect(After(ops, events, n - 1), ops[n - 1], events[n - 1]);
    if j < n - 1 {
      LentIsLive(ops, events, j, n - 1, p, b);
      assert !About(events[n - 1], p);
    }
  }

  lemma {:induction false} LiveIsLent(ops: seq<Op>, events: seq<Event>, n: nat, p: nat) returns (j: nat)
    requires IsRun(ops, events) && n <= |ops| && p in After(ops, events, n).live
    ensures Lent(ops, events, j, n, p, After(ops, events, n).live[p])
  {
    hide Fits, Apply;
    var e := events[n - 1];
    StepEffect(After(ops, events, n - 1), ops[n - 1], e);
    if e.Obtained? && e.p == p {
      j := n - 1;
    } else {
      j := LiveIsLent(ops, events, n - 1, p);
    }
  }

  lemma {:induction false} KeptIsRaw(ops: seq<Op>, events: seq<Event>, j: nat, n: nat, base: nat, count: nat)
    requires IsRun(ops, events) && n <= |ops| && Kept(events, j, n, base, count)
    ensures IsRaw(After(ops, events, n), base, count)
  {
    hide Fits, Apply;
    StepEffect(After(ops, events, n - 1), ops[n - 1], events[n - 1]);
    if j < n - 1 {
      KeptIsRaw(ops, events, j, n - 1, base, count);
    }
  }

  lemma {:induction false} RawIsKept(ops: seq<Op>, events: seq<Event>, n: nat, base: nat) returns (j: nat)
    requires IsRun(ops, events) && n <= |ops| && base in After(ops, events, n).raw
    ensures Kept(events, j, n, base, After(ops, events, n).raw[base])
  {
    hide Fits, Apply;
    var e := events[n - 1];
    StepEffect(After(ops, events, n - 1), ops[n - 1], e);
    if (e.Obtained? || e.Leaked?) && e.base == base {
      j := n - 1;
    } else {
      j := RawIsKept(ops, events, n - 1, base);
    }
  }

  /** At any time exactly those addresses are live that were lent out and not deallocated since. */
  lemma LiveIffLent(ops: seq<Op>, events: seq<Event>, n: nat, p: nat, b: Block)
    requires IsRun(ops, events) && n <= |ops|
    ensures IsLive(After(ops, events, n), p, b)
       <==> exists j: nat :: Lent(ops, events, j, n, p, b)
  {
    if p in After(ops, events, n).live {
      var _ := LiveIsLent(ops, events, n, p);
    }
    forall j: nat | Lent(ops, events, j, n, p, b)
      ensures IsLive(After(ops, events, n), p, b)
    {
      LentIsLive(ops, events, j, n, p, b);
    }
  }

  /** At any time the raw blocks are exactly those obtained, or leaked, and not returned since. */
  lemma RawIffKept(ops: seq<Op>, events: seq<Event>, n: nat, base: nat, count: nat)
    requires IsRun(ops, events) && n <= |ops|
    ensures IsRaw(After(ops, events, n), base, count)
       <==> exists j: nat :: Kept(events, j, n, base, count)
  {
    if base in After(ops, events, n).raw {
      var _ := RawIsKept(ops, events, n, base);
    }
    forall j: nat | Kept(events, j, n, base, count)
      ensures IsRaw(After(ops, events, n), base, count)
    {
      KeptIsRaw(ops, events, j, n, base, count);
    }
  }

  /** What deallocation `i` returns is what the latest allocation of that address obtained, and between the two nothing
      else returned that block. */
  ghost predicate ReturnsObtained(events: seq<Event>, i: nat)
    requires i < |events| && events[i].Returned?
  {
    exists j: nat {:trigger events[j]} ::
      && j < i && events[j] == Obtained(events[i].p, events[i].base, events[i].count)
      && forall k | j < k < i :: !About(events[k], events[i].p) && !(events[k].Returned? && events[k].base == events[i].base)
  }

  lemma EveryReturnIsObtained(ops: seq<Op>, events: seq<Event>, i: nat)
    requires IsRun(ops, events) && i < |ops| && events[i].Returned?
    ensures ReturnsObtained(events, i)
  {
    hide Fits, Apply;
    var p, base := events[i].p, events[i].base;
    StepEffect(After(ops, events, i), ops[i], events[i]);
    var b := After(ops, events, i).live[p];
    var j := LiveIsLent(ops, events, i, p);
    forall k | j < k < i
      ensures !(events[k].Returned? && events[k].base == base)
    {
      assert !About(events[k], p);
      LentIsLive(ops, events, j, k, p, b);
      RunSound(ops, events, k);
      StepEffect(After(ops, events, k), ops[k], events[k]);
    }
    assert events[j] == Obtained(p, base, events[i].count);
  }

  /** A block is never returned again unless it was obtained again in between. */
  lemma ReturnedOnce(ops: seq<Op>, events: seq<Event>, i: nat, i': nat)
    requires IsRun(ops, events) && i < i' < |ops| && events[i].Returned? && events[i'].Returned?
    requires events[i].base == events[i'].base
    ensures exists j {:trigger events[j]} :: i < j < i' && events[j].Obtained? && events[j].base == events[i].base
  {
    EveryReturnIsObtained(ops, events, i');
  }

  /** Every raw block is behind a live user block. */
  ghost predicate NoLeak(s: MemState) {
    forall b | b in s.raw :: exists p :: p in s.live && s.live[p].base == b
  }

  lemma StepLeaksIff(s: MemState, op: Op, e: Event)
    requires Sound(s) && InRange(op) && Fits(s, op, e)
    ensures NoLeak(Apply(s, op, e)) <==> NoLeak(s) && !Fails(op)
  {
    hide Fits, Apply, BlockOk;
    var s' := Apply(s, op, e);
    StepEffect(s, op, e);
    BasesAreRaw(s.mem, s.raw, s.live);
    if e.Leaked? {
      assert e.base in s'.raw;
    } else if NoLeak(s) {
      forall b | b in s'.raw
        ensures exists p :: p in s'.live && s'.live[p].base == b
      {
        if e.Obtained? && b == e.base {
          assert e.p in s'.live && s'.live[e.p].base == b;
        } else {
          var p :| p in s.live && s.live[p].base == b;
          assert p in s'.live;
        }
      }
    }
    if NoLeak(s') && !e.Leaked? {
      forall b | b in s.raw
        ensures exists p :: p in s.live && s.live[p].base == b
      {
        if b in s'.raw {
          var p :| p in s'.live && s'.live[p].base == b;
          assert p in s.live;
        } else {
          assert e.p in s.live && s.live[e.p].base == b;
        }
      }
    }
  }

  /** Every raw block keeps its user block exactly as long as no request has made the space computation wrap. */
  lemma {:induction false} NoLeakIffNoneFails(ops: seq<Op>, events: seq<Event>, n: nat)
    requires IsRun(ops, events) && n <= |ops|
    ensures NoLeak(After(ops, events, n)) <==> forall k | 0 <= k < n :: !Fails(ops[k])
  {
    hide Fits, Apply, Sound;
    if n > 0 {
      NoLeakIffNoneFails(ops, events, n - 1);
      RunSound(ops, events, n - 1);
      StepLeaksIff(After(ops, events, n - 1), ops[n - 1], events[n - 1]);
    }
  }

  lemma UserByteKept(s: MemState, op: Op, e: Event, p: nat, i: nat)
    requires Sound(s) && InRange(op) && Fits(s, op, e)
    requires p in s.live && i < s.live[p].size && p + i in s.mem
    requires !About(e, p) && !(op.DoWrite? && op.p == p && op.i == i)
    ensures var s' := Apply(s, op, e);
            p in s'.live && s'.live[p] == s.live[p] && p + i in s'.mem && s'.mem[p + i] == s.mem[p + i]
  {
    hide SlotHolds, ToBytes;
    assert BlockOk(s.mem, s.raw, p, s.live[p]);
    if op.DoWrite? && op.p in s.live && op.p != p {
      LiveBlocksDisjoint(s.mem, s.raw, s.live, p, op.p);
    }
    if e.Obtained? {
      assert Disjoint(s.live[p].base, s.raw[s.live[p].base], e.base, e.count);
      assert AgreeOutside(s.mem, Apply(s, op, e).mem, e.p + op.size, SLOT);
    }
  }

  lemma WriteLands(s: MemState, op: Op, e: Event)
    requires op.DoWrite? && op.p in s.live && op.i < s.live[op.p].size
    ensures var s' := Apply(s, op, e); s'.live == s.live && op.p + op.i in s'.mem && s'.mem[op.p + op.i] == op.b
  {
  }

  /** A byte the user wrote stays until the user writes it again or deallocates the block, whatever is allocated,
      written and deallocated elsewhere. */
  lemma {:induction false} LastWriteStays(ops: seq<Op>, events: seq<Event>, k: nat, n: nat)
    requires IsRun(ops, events) && k < n <= |ops| && ops[k].DoWrite?
    requires var live := After(ops, events, k).live; ops[k].p in live && ops[k].i < live[ops[k].p].size
    requires forall j | k < j < n ::
               !About(events[j], ops[k].p) && !(ops[j].DoWrite? && ops[j].p == ops[k].p && ops[j].i == ops[k].i)
    ensures var s := After(ops, events, n);
            && ops[k].p in s.live && s.live[ops[k].p] == After(ops, events, k).live[ops[k].p]
            && ops[k].p + ops[k].i in s.mem && s.mem[ops[k].p + ops[k].i] == ops[k].b
  {
    hide Fits, Apply, Sound;
    if k + 1 == n {
      assert After(ops, events, n) == Apply(After(ops, events, k), ops[k], events[k]);
      WriteLands(After(ops, events, k), ops[k], events[k]);
    } else {
      LastWriteStays(ops, events, k, n - 1);
      RunSound(ops, events, n - 1);
      UserByteKept(After(ops, events, n - 1), ops[n - 1], events[n - 1], ops[k].p, ops[k].i);
    }
  }

  /** Every sequence of operations that does not overrun its own request is a run: each block is returned as it was
      obtained and only once, and blocks leak only when a request fails. */
  method Run(ops: seq<Op>) returns (m: Memory, ghost events: seq<Event>)
    requires forall op | op in ops :: InRange(op)
    ensures m.Valid() && IsRun(ops, events) && m.State() == After(ops, events, |ops|)
    ensures forall i | 0 <= i < |ops| && events[i].Returned? :: ReturnsObtained(events, i)
    ensures forall p, b :: IsLive(m.State(), p, b) <==> exists j: nat :: Lent(ops, events, j, |ops|, p, b)
    ensures forall base, count ::
              IsRaw(m.State(), base, count) <==> exists j: nat :: Kept(events, j, |ops|, base, count)
    ensures NoLeak(m.State()) <==> forall op | op in ops :: !Fails(op)
  {
    hide Fits, Apply, Lent, Kept, IsLive, IsRaw, ReturnsObtained, NoLeak, RawOk, LiveOk;
    m := new Memory();
    events := [];
    var i := 0;
    while i < |ops|
      invariant i <= |ops| && |events| == i && m.Valid()
      invariant IsRun(ops[..i], events) && m.State() == After(ops[..i], events, i)
    {
      ghost var e := Step(m, ops[i]);
      OneMoreEvent(ops, events, i, e);
      events := events + [e];
      i := i + 1;
    }
    assert ops[..|ops|] == ops;
    RunFacts(ops, events);
  }

  lemma {:induction false} SameAfter(ops: seq<Op>, events: seq<Event>, ops': seq<Op>, events': seq<Event>, n: nat)
    requires n <= |ops| && n <= |ops'| && n <= |events| && n <= |events'|
    requires forall k | 0 <= k < n :: ops[k] == ops'[k] && events[k] == events'[k]
    ensures After(ops, events, n) == After(ops', events', n)
  {
    hide Apply;
    if n > 0 {
      SameAfter(ops, events, ops', events', n - 1);
    }
  }

  lemma OneMoreEvent(ops: seq<Op>, events: seq<Event>, i: nat, e: Event)
    requires i < |ops| && |events| == i && IsRun(ops[..i], events) && InRange(ops[i])
    requires Fits(After(ops[..i], events, i), ops[i], e)
    ensures IsRun(ops[..i + 1], events + [e])
    ensures After(ops[..i + 1], events + [e], i + 1) == Apply(After(ops[..i], events, i), ops[i], e)
  {
    hide Fits, Apply;
    var longer, events' := ops[..i + 1], events + [e];
    forall k | 0 <= k < i + 1
      ensures InRange(longer[k]) && Fits(After(longer, events', k), longer[k], events'[k])
    {
      SameAfter(ops[..i], events, longer, events', k);
      assert k < i ==> longer[k] == ops[..i][k];
    }
    SameAfter(ops[..i], events, longer, events', i);
  }

  lemma RunFacts(ops: seq<Op>, events: seq<Event>)
    requires IsRun(ops, events)
    ensures forall i | 0 <= i < |ops| && events[i].Returned? :: ReturnsObtained(events, i)
    ensures var s := After(ops, events, |ops|);
            && (forall p, b :: IsLive(s, p, b) <==> exists j: nat :: Lent(ops, events, j, |ops|, p, b))
            && (forall base, count ::
                  IsRaw(s, base, count) <==> exists j: nat :: Kept(events, j, |ops|, base, count))
            && (NoLeak(s) <==> forall op | op in ops :: !Fails(op))
  {
    hide Fits, Lent, Kept, ReturnsObtained, NoLeak;
    var s := After(ops, events, |ops|);
    forall i | 0 <= i < |ops| && events[i].Returned?
      ensures ReturnsObtained(events, i)
    {
      EveryReturnIsObtained(ops, events, i);
    }
    forall p, b
      ensures IsLive(s, p, b) <==> exists j: nat :: Lent(ops, events, j, |ops|, p, b)
    {
      LiveIffLent(ops, events, |ops|, p, b);
    }
    forall base, count
      ensures IsRaw(s, base, count) <==> exists j: nat :: Kept(events, j, |ops|, base, count)
    {
      RawIffKept(ops, events, |ops|, base, count);
    }
    NoLeakIffNoneFails(ops, events, |ops|);
  }

  method Step(m: Memory, op: Op) returns (ghost e: Event)
    requires m.Valid() && InRange(op)
    modifies m
    ensures m.Valid() && Fits(old(m.State()), op, e) && m.State() == Apply(old(m.State()), op, e)
  {
    hide StoreBytes, ToBytes, LiveOk, RawOk;
    match op
    case DoAllocate(size, align) =>
      var r, base := m.Allocate(size, align);
      e := if r.Some? then Obtained(r.value, base, m.raw[base]) else Leaked(base, m.raw[base]);
    case DoWrite(p, i, b) =>
      if p in m.live && i < m.live[p].size {
        m.Write(p, i, b);
      }
      e := Neither;
    case DoDeallocate(p) =>
      e := Release(m, p);
  }

  method Release(m: Memory, p: nat) returns (ghost e: Event)
    requires m.Valid()
    modifies m
    ensures m.Valid() && Fits(old(m.State()), DoDeallocate(p), e) && m.State() == Apply(old(m.State()), DoDeallocate(p), e)
  {
    e := Neither;
    if p in m.live {
      assert BlockOk(m.mem, m.raw, p, m.live[p]);
      var returned := m.Deallocate(p, m.live[p].size, m.live[p].align);
      e := Returned(p, returned.value.0, returned.value.1);
    }
  }
}

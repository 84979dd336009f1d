/** Machine-level vocabulary shared by the models: bytes, `std::size_t`, and a few sequence helpers. */
module Common {

  type byte = bv8

  type Bytes = seq<byte>

  /** `std::size_t` on a 64-bit target.  Every operation on it is checked to stay in range, so code written
      with it is proved free of wrap-around. */
  newtype size_t = x: int | 0 <= x <= 0xFFFF_FFFF_FFFF_FFFF

  datatype Option<+T> = None | Some(value: T)

  /** `std::streambuf::int_type`: a character, or the end-of-file value that no character converts to. */
  datatype IntType = Eof | Char(c: byte)

  /** `traits_type::not_eof`. */
  function NotEof(c: IntType): IntType {
    if c.Eof? then Char(0) else c
  }

  function Min(a: int, b: int): int {
    if a <= b then a else b
  }

  function Max(a: int, b: int): int {
    if a >= b then a else b
  }

  /** `std::min` and `std::max` at type `std::size_t`. */
  function SizeMin(a: size_t, b: size_t): size_t {
    if b < a then b else a
  }

  function SizeMax(a: size_t, b: size_t): size_t {
    if a < b then b else a
  }

  function Flatten(parts: seq<Bytes>): Bytes {
    if parts == [] then [] else Flatten(parts[..|parts| - 1]) + parts[|parts| - 1]
  }

  lemma FlattenSnoc(parts: seq<Bytes>, last: Bytes)
    ensures Flatten(parts + [last]) == Flatten(parts) + last
  {
    assert (parts + [last])[..|parts|] == parts;
  }

  /** One step of a queue: what is put in at one end and what comes out at the other keep the books balanced. */
  lemma FourParts(start: Bytes, ins: Bytes, in': Bytes, outs: Bytes, mid: Bytes, out': Bytes, end: Bytes)
    requires start + ins == outs + mid && mid + in' == out' + end
    ensures start + (ins + in') == (outs + out') + end
  {
    calc {
      start + (ins + in');
      (start + ins) + in';
      (outs + mid) + in';
      outs + (mid + in');
      outs + (out' + end);
      (outs + out') + end;
    }
  }
}

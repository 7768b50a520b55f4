/** The protobuf reader of `crates/core/src/geo/protobuf.rs`, and the encoders it is paired with. */
module Protobuf {
  import opened Bits
  import opened Wrappers

  type Bytes = seq<byte>

  const WIRE_VARINT := 0
  const WIRE_I64 := 1
  const WIRE_LEN := 2
  const WIRE_I32 := 5

  const U64 := 0x1_0000_0000_0000_0000

  datatype GeoError = Truncated | Malformed

  // ----- reading -----

  /** The varint loop from a given accumulator: bits shifted past 64 are lost, an 11th byte is an error. */
  function VarintFrom(buf: Bytes, pos: nat, result: nat, shift: nat): (r: Result<(nat, nat), GeoError>)
    ensures r.Ok? ==> pos < r.value.1 <= |buf|
    decreases |buf| - pos
  {
    if pos >= |buf| then Err(Truncated)
    else if shift >= 64 then Err(Malformed)
    else
      var more := Or(result, (buf[pos] % 128 * Pow2(shift)) % U64);
      if buf[pos] < 128 then Ok((more, pos + 1)) else VarintFrom(buf, pos + 1, more, shift + 7)
  }

  function ReadVarint(buf: Bytes, pos: nat): (r: Result<(nat, nat), GeoError>)
    ensures r.Ok? ==> pos < r.value.1 <= |buf|
  {
    VarintFrom(buf, pos, 0, 0)
  }

  /** Field number and wire type, and the position after the tag. */
  function ReadTag(buf: Bytes, pos: nat): (r: Result<(nat, nat, nat), GeoError>)
    ensures r.Ok? ==> pos < r.value.2 <= |buf|
  {
    var (key, next) :- ReadVarint(buf, pos);
    if key / 8 == 0 then Err(Malformed) else Ok((key / 8, key % 8, next))
  }

  function Advance(buf: Bytes, pos: nat, n: nat): (r: Result<nat, GeoError>)
    ensures r.Ok? ==> r.value == pos + n <= |buf|
  {
    if pos + n > |buf| then Err(Truncated) else Ok(pos + n)
  }

  function ReadBytes(buf: Bytes, pos: nat): (r: Result<(Bytes, nat), GeoError>)
    ensures r.Ok? ==> pos < r.value.1 <= |buf| && |r.value.0| < |buf|
  {
    var (len, start) :- ReadVarint(buf, pos);
    var end :- Advance(buf, start, len);
    Ok((buf[start..end], end))
  }

  /** One field with its value. */
  datatype Field =
    | VarintField(num: nat, value: nat)
    | Fixed64Field(num: nat, data: Bytes)
    | LenField(num: nat, data: Bytes)
    | Fixed32Field(num: nat, data: Bytes)

  function ReadValue(buf: Bytes, pos: nat, num: nat, wire: nat): (r: Result<(Field, nat), GeoError>)
    ensures r.Ok? ==> pos <= r.value.1 <= |buf|
    ensures r.Ok? && r.value.0.LenField? ==> |r.value.0.data| < |buf|
  {
    if wire == WIRE_VARINT then
      var (v, next) :- ReadVarint(buf, pos);
      Ok((VarintField(num, v), next))
    else if wire == WIRE_I64 then
      var next :- Advance(buf, pos, 8);
      Ok((Fixed64Field(num, buf[pos..next]), next))
    else if wire == WIRE_LEN then
      var (data, next) :- ReadBytes(buf, pos);
      Ok((LenField(num, data), next))
    else if wire == WIRE_I32 then
      var next :- Advance(buf, pos, 4);
      Ok((Fixed32Field(num, buf[pos..next]), next))
    else Err(Malformed)
  }

  function ReadField(buf: Bytes, pos: nat): (r: Result<(Field, nat), GeoError>)
    ensures r.Ok? ==> pos < r.value.1 <= |buf|
    ensures r.Ok? && r.value.0.LenField? ==> |r.value.0.data| < |buf|
  {
    var (num, wire, next) :- ReadTag(buf, pos);
    ReadValue(buf, next, num, wire)
  }

  /** Every message parser: read a field, let `step` use or ignore it, until the end. */
  function ParseMessage<A>(buf: Bytes, pos: nat, acc: A, step: (A, Field) -> Result<A, GeoError>): Result<A, GeoError>
    decreases |buf| - pos
  {
    if pos >= |buf| then Ok(acc)
    else
      var (field, next) :- ReadField(buf, pos);
      var more :- step(acc, field);
      ParseMessage(buf, next, more, step)
  }

  // ----- writing -----

  function Varint(v: nat): (out: Bytes)
    ensures out != []
  {
    if v < 128 then [v] else [128 + v % 128] + Varint(v / 128)
  }

  function Tag(num: nat, wire: nat): nat {
    num * 8 + wire
  }

  function WireOf(f: Field): nat {
    match f
    case VarintField(_, _) => WIRE_VARINT
    case Fixed64Field(_, _) => WIRE_I64
    case LenField(_, _) => WIRE_LEN
    case Fixed32Field(_, _) => WIRE_I32
  }

  function Body(f: Field): Bytes {
    match f
    case VarintField(_, v) => Varint(v)
    case LenField(_, data) => Varint(|data|) + data
    case Fixed64Field(_, data) => data
    case Fixed32Field(_, data) => data
  }

  function EncodeField(f: Field): Bytes {
    Varint(Tag(f.num, WireOf(f))) + Body(f)
  }

  function Encode(fields: seq<Field>): Bytes {
    if fields == [] then [] else EncodeField(fields[0]) + Encode(fields[1..])
  }

  /** Numbers and lengths that fit their 64-bit words. */
  predicate WellFormed(f: Field) {
    && 1 <= f.num && Tag(f.num, 7) < U64
    && (match f
        case VarintField(_, v) => v < U64
        case Fixed64Field(_, data) => |data| == 8
        case LenField(_, data) => |data| < U64
        case Fixed32Field(_, data) => |data| == 4)
  }

  predicate AllWellFormed(fields: seq<Field>) {
    forall i :: 0 <= i < |fields| ==> WellFormed(fields[i])
  }

  function Fold<A>(fields: seq<Field>, acc: A, step: (A, Field) -> Result<A, GeoError>): Result<A, GeoError>
    decreases |fields|
  {
    if fields == [] then Ok(acc)
    else
      var more :- step(acc, fields[0]);
      Fold(fields[1..], more, step)
  }

  // ----- reading what was written -----

  /** Position `pos` of `buf` holds `part`, then `rest`. */
  predicate Holds(buf: Bytes, pos: nat, part: Bytes, rest: Bytes) {
    pos <= |buf| && buf[pos..] == part + rest
  }

  lemma HoldsNext(buf: Bytes, pos: nat, a: Bytes, b: Bytes, rest: Bytes)
    requires Holds(buf, pos, a + b, rest)
    ensures pos + |a| <= |buf| && buf[pos..pos + |a|] == a
    ensures Holds(buf, pos, a, b + rest)
    ensures Holds(buf, pos + |a|, b, rest)
  {
    assert (a + b) + rest == a + (b + rest);
    assert buf[pos..][|a|..] == buf[pos + |a|..];
    assert buf[pos..][..|a|] == buf[pos..pos + |a|];
  }

  lemma DigitFits(result: nat, d: nat, shift: nat)
    requires result < Pow2(shift) && d * Pow2(shift) < U64
    ensures Or(result, (d * Pow2(shift)) % U64) == result + d * Pow2(shift)
  {
    var x := d * Pow2(shift);
    MulMonotone(Pow2(shift), 0, d);
    assert x % U64 == x;
    OrDisjoint(result, d, shift);
  }

  /** Taking the low seven bits of `v` at weight `p` leaves the rest at weight `128 * p`. */
  lemma SplitDigit(result: nat, v: nat, p: nat)
    requires result < p && v * p < U64
    ensures v % 128 * p < U64 && result + v % 128 * p < 128 * p
    ensures v / 128 * (128 * p) < U64
    ensures result + v % 128 * p + v / 128 * (128 * p) == result + v * p
  {
    var q, d := v / 128, v % 128;
    assert v == 128 * q + d;
    Distribute(p, 128, q, d);
    assert v * p == q * (128 * p) + d * p;
    MulMonotone(p, d, 127);
    MulMonotone(p, 0, d);
    MulMonotone(128 * p, 0, q);
  }

  lemma ShiftStays(v: nat, shift: nat)
    requires shift < 64 && 128 <= v && v * Pow2(shift) < U64
    ensures shift + 7 < 64
  {
    var p := Pow2(shift);
    MulMonotone(p, 128, v);
    Pow2Add(shift, 7);
    assert Pow2(7) == 128;
    Pow2Words();
    Pow2Reflects(shift + 7, 64);
  }

  lemma FirstDigit(buf: Bytes, pos: nat, v: nat, rest: Bytes, result: nat, shift: nat)
    requires Holds(buf, pos, Varint(v), rest)
    requires shift < 64 && result < Pow2(shift) && v * Pow2(shift) < U64
    ensures var more := result + v % 128 * Pow2(shift);
            && pos < |buf|
            && more >= 0
            && VarintFrom(buf, pos, result, shift) ==
               if v < 128 then Ok((more, pos + 1)) else VarintFrom(buf, pos + 1, more, shift + 7)
  {
    assert buf[pos] == (Varint(v) + rest)[0];
    var d := buf[pos] % 128;
    assert d == v % 128;
    SplitDigit(result, v, Pow2(shift));
    DigitFits(result, d, shift);
  }

  /** The arithmetic of one step of the loop when more digits follow. */
  lemma NextDigit(v: nat, result: nat, shift: nat) returns (more: nat)
    requires shift < 64 && 128 <= v && result < Pow2(shift) && v * Pow2(shift) < U64
    ensures more == result + v % 128 * Pow2(shift)
    ensures shift + 7 < 64 && more < Pow2(shift + 7) && v / 128 * Pow2(shift + 7) < U64
    ensures more + v / 128 * Pow2(shift + 7) == result + v * Pow2(shift)
  {
    var p := Pow2(shift);
    MulMonotone(p, 0, v % 128);
    more := result + v % 128 * p;
    ShiftStays(v, shift);
    SplitDigit(result, v, p);
    assert Pow2(shift + 7) == 128 * p by {
      Pow2Add(shift, 7);
      assert Pow2(7) == 128;
    }
  }

  lemma VarintTail(buf: Bytes, pos: nat, v: nat, rest: Bytes)
    requires 128 <= v && Holds(buf, pos, Varint(v), rest)
    ensures |Varint(v)| == 1 + |Varint(v / 128)| && Holds(buf, pos + 1, Varint(v / 128), rest)
  {
    HoldsNext(buf, pos, [128 + v % 128], Varint(v / 128), rest);
  }

  lemma {:induction false} VarintRoundTrip(buf: Bytes, pos: nat, v: nat, rest: Bytes, result: nat, shift: nat)
    requires Holds(buf, pos, Varint(v), rest)
    requires shift < 64 && result < Pow2(shift) && v * Pow2(shift) < U64
    ensures VarintFrom(buf, pos, result, shift) == Ok((result + v * Pow2(shift), pos + |Varint(v)|))
    decreases v
  {
    FirstDigit(buf, pos, v, rest, result, shift);
    if v < 128 {
      assert v % 128 == v && |Varint(v)| == 1;
    } else {
      var more := NextDigit(v, result, shift);
      VarintTail(buf, pos, v, rest);
      VarintRoundTrip(buf, pos + 1, v / 128, rest, more, shift + 7);
    }
  }

  /** `read_varint` inverts `put_varint` for every 64-bit value and consumes exactly its bytes. */
  lemma ReadVarintOfVarint(buf: Bytes, pos: nat, v: nat, rest: Bytes)
    requires Holds(buf, pos, Varint(v), rest) && v < U64
    ensures ReadVarint(buf, pos) == Ok((v, pos + |Varint(v)|))
  {
    assert Pow2(0) == 1;
    VarintRoundTrip(buf, pos, v, rest, 0, 0);
  }

  lemma ReadFieldOfField(buf: Bytes, pos: nat, f: Field, rest: Bytes)
    requires Holds(buf, pos, EncodeField(f), rest) && WellFormed(f)
    ensures ReadField(buf, pos) == Ok((f, pos + |EncodeField(f)|))
  {
    var key := Tag(f.num, WireOf(f));
    assert key / 8 == f.num && key % 8 == WireOf(f);
    HoldsNext(buf, pos, Varint(key), Body(f), rest);
    ReadVarintOfVarint(buf, pos, key, Body(f) + rest);
    assert ReadTag(buf, pos) == Ok((f.num, WireOf(f), pos + |Varint(key)|));
    ReadValueOfField(buf, pos + |Varint(key)|, f, rest);
  }

  lemma ReadBytesOf(buf: Bytes, pos: nat, data: Bytes, rest: Bytes)
    requires |data| < U64 && Holds(buf, pos, Varint(|data|) + data, rest)
    ensures ReadBytes(buf, pos) == Ok((data, pos + |Varint(|data|)| + |data|))
  {
    HoldsNext(buf, pos, Varint(|data|), data, rest);
    ReadVarintOfVarint(buf, pos, |data|, data + rest);
    HoldsAll(buf, pos + |Varint(|data|)|, data, rest);
  }

  lemma ReadValueOfField(buf: Bytes, pos: nat, f: Field, rest: Bytes)
    requires WellFormed(f) && Holds(buf, pos, Body(f), rest)
    ensures ReadValue(buf, pos, f.num, WireOf(f)) == Ok((f, pos + |Body(f)|))
  {
    match f
    case VarintField(_, v) =>
      ReadVarintOfVarint(buf, pos, v, rest);
    case LenField(_, data) =>
      ReadBytesOf(buf, pos, data, rest);
    case _ =>
      HoldsAll(buf, pos, f.data, rest);
  }

  lemma HoldsAll(buf: Bytes, pos: nat, part: Bytes, rest: Bytes)
    requires Holds(buf, pos, part, rest)
    ensures pos + |part| <= |buf| && buf[pos..pos + |part|] == part
  {
    assert buf[pos..][..|part|] == buf[pos..pos + |part|];
  }

  /** Parsing an encoded message applies the parser's step to each of its fields, in order. */
  lemma {:induction false} ParseOfEncode<A>(buf: Bytes, pos: nat, fields: seq<Field>, acc: A,
                                            step: (A, Field) -> Result<A, GeoError>)
    requires Holds(buf, pos, Encode(fields), []) && AllWellFormed(fields)
    ensures ParseMessage(buf, pos, acc, step) == Fold(fields, acc, step)
    decreases |fields|
  {
    if fields != [] {
      var first, rest := EncodeField(fields[0]), Encode(fields[1..]);
      HoldsNext(buf, pos, first, rest, []);
      assert Holds(buf, pos, first, rest) by { assert rest + [] == rest; }
      ReadFieldOfField(buf, pos, fields[0], rest);
      if step(acc, fields[0]).Ok? {
        ParseOfEncode(buf, pos + |first|, fields[1..], step(acc, fields[0]).value, step);
      }
    }
  }

  lemma ParseEncoded<A>(fields: seq<Field>, acc: A, step: (A, Field) -> Result<A, GeoError>)
    requires AllWellFormed(fields)
    ensures ParseMessage(Encode(fields), 0, acc, step) == Fold(fields, acc, step)
  {
    assert Encode(fields)[0..] == Encode(fields) + [];
    ParseOfEncode(Encode(fields), 0, fields, acc, step);
  }

  lemma {:induction false} FoldConcat<A>(a: seq<Field>, b: seq<Field>, acc: A, step: (A, Field) -> Result<A, GeoError>)
    ensures Fold(a + b, acc, step) ==
            (match Fold(a, acc, step)
             case Err(e) => Err(e)
             case Ok(mid) => Fold(b, mid, step))
    decreases |a|
  {
    if a == [] {
      assert a + b == b;
    } else {
      assert (a + b)[1..] == a[1..] + b;
      if step(acc, a[0]).Ok? {
        FoldConcat(a[1..], b, step(acc, a[0]).value, step);
      }
    }
  }

  lemma WellFormedConcat(a: seq<Field>, b: seq<Field>)
    requires AllWellFormed(a) && AllWellFormed(b)
    ensures AllWellFormed(a + b)
  {
  }

  lemma FoldSkip<A>(unknown: Field, after: seq<Field>, acc: A, step: (A, Field) -> Result<A, GeoError>)
    requires step(acc, unknown) == Ok(acc)
    ensures Fold([unknown] + after, acc, step) == Fold(after, acc, step)
  {
    assert ([unknown] + after)[1..] == after;
  }

  /** A field the parser ignores can stand anywhere in the message. */
  lemma UnknownFieldIgnored<A(!new)>(before: seq<Field>, unknown: Field, after: seq<Field>, acc: A,
                                     step: (A, Field) -> Result<A, GeoError>)
    requires AllWellFormed(before) && WellFormed(unknown) && AllWellFormed(after)
    requires forall a :: step(a, unknown) == Ok(a)
    ensures ParseMessage(Encode(before + ([unknown] + after)), 0, acc, step) ==
            ParseMessage(Encode(before + after), 0, acc, step)
  {
    WellFormedConcat([unknown], after);
    WellFormedConcat(before, [unknown] + after);
    WellFormedConcat(before, after);
    ParseEncoded(before + ([unknown] + after), acc, step);
    ParseEncoded(before + after, acc, step);
    FoldUnknown(before, unknown, after, acc, step);
  }

  lemma FoldUnknown<A(!new)>(before: seq<Field>, unknown: Field, after: seq<Field>, acc: A,
                             step: (A, Field) -> Result<A, GeoError>)
    requires forall a :: step(a, unknown) == Ok(a)
    ensures Fold(before + ([unknown] + after), acc, step) == Fold(before + after, acc, step)
  {
    FoldConcat(before, [unknown] + after, acc, step);
    FoldConcat(before, after, acc, step);
    var mid := Fold(before, acc, step);
    if mid.Ok? { FoldSkip(unknown, after, mid.value, step); }
  }

  /** Fields that mean the same to the parser can stand for each other anywhere in the message. */
  lemma FieldReplaced<A(!new)>(before: seq<Field>, f: Field, g: Field, after: seq<Field>, acc: A,
                               step: (A, Field) -> Result<A, GeoError>)
    requires AllWellFormed(before) && WellFormed(f) && WellFormed(g) && AllWellFormed(after)
    requires forall a :: step(a, f) == step(a, g)
    ensures ParseMessage(Encode(before + ([f] + after)), 0, acc, step) ==
            ParseMessage(Encode(before + ([g] + after)), 0, acc, step)
  {
    WellFormedConcat([f], after);
    WellFormedConcat([g], after);
    WellFormedConcat(before, [f] + after);
    WellFormedConcat(before, [g] + after);
    ParseEncoded(before + ([f] + after), acc, step);
    ParseEncoded(before + ([g] + after), acc, step);
    FoldConcat(before, [f] + after, acc, step);
    FoldConcat(before, [g] + after, acc, step);
    assert ([f] + after)[1..] == after && ([g] + after)[1..] == after;
  }

  // ----- the cursor of the source -----

  class Reader {
    const buf: Bytes
    var pos: nat

    ghost predicate Valid()
      reads this
    {
      pos <= |buf|
    }

    constructor (bytes: Bytes)
      ensures Valid() && buf == bytes && pos == 0
    {
      buf, pos := bytes, 0;
    }

    predicate Eof()
      reads this
    {
      pos >= |buf|
    }

    method TakeVarint() returns (r: Result<nat, GeoError>)
      requires Valid()
      modifies this
      ensures Valid()
      ensures match ReadVarint(buf, old(pos))
              case Err(e) => r == Err(e)
              case Ok((v, next)) => r == Ok(v) && pos == next
    {
      var result, shift := 0, 0;
      while true
        invariant Valid()
        invariant VarintFrom(buf, old(pos), 0, 0) == VarintFrom(buf, pos, result, shift)
        decreases |buf| - pos
      {
        if pos >= |buf| { return Err(Truncated); }
        var byte := buf[pos];
        pos := pos + 1;
        if shift >= 64 { return Err(Malformed); }
        result := Or(result, (byte % 128 * Pow2(shift)) % U64);
        if byte < 128 { return Ok(result); }
        shift := shift + 7;
      }
    }

    method TakeTag() returns (r: Result<(nat, nat), GeoError>)
      requires Valid()
      modifies this
      ensures Valid()
      ensures match ReadTag(buf, old(pos))
              case Err(e) => r == Err(e)
              case Ok((num, wire, next)) => r == Ok((num, wire)) && pos == next
    {
      var key :- TakeVarint();
      if key / 8 == 0 { return Err(Malformed); }
      return Ok((key / 8, key % 8));
    }

    method TakeBytes() returns (r: Result<Bytes, GeoError>)
      requires Valid()
      modifies this
      ensures Valid()
      ensures match ReadBytes(buf, old(pos))
              case Err(e) => r == Err(e)
              case Ok((data, next)) => r == Ok(data) && pos == next
    {
      var len :- TakeVarint();
      var end := pos + len;
      if end > |buf| { return Err(Truncated); }
      var slice := buf[pos..end];
      pos := end;
      return Ok(slice);
    }

    method Skip(wire: nat, ghost num: nat) returns (r: Result<bool, GeoError>)
      requires Valid()
      modifies this
      ensures Valid()
      ensures match ReadValue(buf, old(pos), num, wire)
              case Err(e) => r == Err(e)
              case Ok((_, next)) => r.Ok? && pos == next
    {
      if wire == WIRE_VARINT {
        var _ :- TakeVarint();
      } else if wire == WIRE_I64 {
        if pos + 8 > |buf| { return Err(Truncated); }
        pos := pos + 8;
      } else if wire == WIRE_LEN {
        var _ :- TakeBytes();
      } else if wire == WIRE_I32 {
        if pos + 4 > |buf| { return Err(Truncated); }
        pos := pos + 4;
      } else {
        return Err(Malformed);
      }
      return Ok(true);
    }
  }
}

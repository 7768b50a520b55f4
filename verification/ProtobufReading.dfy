/** What the protobuf reader accepts, on any bytes: `crates/core/src/geo/protobuf.rs`. */
module ProtobufReading {
  import opened Bits
  import opened Wrappers
  import opened Protobuf

  // ----- varints -----

  /** The value of digits of seven bits, the least significant first. */
  function Weight(digits: Bytes): nat {
    if digits == [] then 0 else digits[0] % 128 + 128 * Weight(digits[1..])
  }

  /** Bytes with the continuation bit. */
  predicate Continue(bytes: Bytes) {
    forall i :: 0 <= i < |bytes| ==> bytes[i] >= 128
  }

  /** Bytes that all continue but the last. */
  predicate EndsAtLast(bytes: Bytes) {
    bytes != [] && Continue(bytes[..|bytes| - 1]) && bytes[|bytes| - 1] < 128
  }

  lemma ModAdd(a: nat, b: nat, m: nat)
    requires 0 < m
    ensures (a % m + b) % m == (a + b) % m
  {
    var s := a % m + b;
    assert a + b == m * (a / m) + s;
    QuotientUnique(a + b, m, a / m + s / m, s % m) by {
      assert m * (a / m + s / m) == m * (a / m) + m * (s / m);
    }
  }

  /** Shifting a digit up in a word of `k * p` keeps its low bits. */
  lemma LowBits(d: nat, p: nat, k: nat, word: nat)
    requires 0 < p && 0 < k && word == p * k
    ensures (d * p) % word == d % k * p <= word - p
  {
    var q, r := d / k, d % k;
    Distribute(p, k, q, r);
    assert p * d == word * q + p * r by { assert d == k * q + r; }
    MulMonotone(p, r, k - 1);
    MulMonotone(p, 0, r);
    assert p * (k - 1) == word - p by { Distribute(p, k, 1, -1); }
    QuotientUnique(d * p, word, q, p * r);
  }

  lemma WordAsProduct(s: nat)
    requires s <= 64
    ensures U64 == Pow2(s) * Pow2(64 - s)
  {
    Pow2Add(s, 64 - s);
    Pow2Words();
  }

  lemma Pow2Plus7(s: nat)
    ensures Pow2(s + 7) == 128 * Pow2(s)
  {
    Pow2Add(s, 7);
    assert Pow2(7) == 128;
  }

  lemma DigitBound(result: nat, low: nat, d: nat, p: nat)
    requires result < p && low <= d < 128
    ensures result + low * p < 128 * p
  {
    MulMonotone(p, low, 127);
  }

  lemma AddInWord(result: nat, shifted: nat, word: nat, p: nat)
    requires 0 < p <= word && shifted % word <= word - p && result < p
    ensures (result + shifted) % word == result + shifted % word
  {
    QuotientUnique(result + shifted, word, shifted / word, result + shifted % word);
  }

  /** Or-ing a shifted digit in is adding it. */
  lemma OrDigit(result: nat, low: nat, s: nat, shifted: nat)
    requires result < Pow2(s) && shifted == low * Pow2(s)
    ensures Or(result, shifted) == result + shifted
  {
    OrDisjoint(result, low, s);
  }

  lemma SumInWord(result: nat, x: nat, p: nat, low: nat, d: nat)
    requires 0 < p <= U64 && x % U64 == low * p <= U64 - p && result < p && low <= d < 128
    ensures result + x % U64 == (result + x) % U64 < 128 * p
  {
    AddInWord(result, x, U64, p);
    DigitBound(result, low, d, p);
  }

  lemma {:induction false} ShiftedDigit(d: nat, s: nat) returns (low: nat)
    requires s < 64
    ensures low <= d && Pow2(s) <= U64 && (d * Pow2(s)) % U64 == low * Pow2(s) <= U64 - Pow2(s)
  {
    var k := Pow2(64 - s);
    low := d % k;
    WordAsProduct(s);
    MulMonotone(Pow2(s), 1, k);
    LowBits(d, Pow2(s), k, U64);
  }

  /** ... in a word of 64 bits too, whose upper end cuts the last digit. */
  lemma PutDigit(result: nat, d: nat, s: nat)
    requires s < 64 && result < Pow2(s) && d < 128
    ensures Or(result, (d * Pow2(s)) % U64) == (result + d * Pow2(s)) % U64
    ensures Or(result, (d * Pow2(s)) % U64) < Pow2(s + 7)
  {
    var low := ShiftedDigit(d, s);
    SumInWord(result, d * Pow2(s), Pow2(s), low, d);
    OrDigit(result, low, s, (d * Pow2(s)) % U64);
    Pow2Plus7(s);
  }

  /** The value of a varint over an accumulator that holds the digits below `s`. */
  function Over(result: nat, digits: Bytes, s: nat): nat {
    (result + Weight(digits) * Pow2(s)) % U64
  }

  lemma WeightSplits(d: nat, w: nat, p: nat)
    ensures d * p + w * (128 * p) == (d + 128 * w) * p
    ensures d * p >= 0 && w * (128 * p) >= 0
  {
    MulMonotone(p, 0, d);
    MulMonotone(128 * p, 0, w);
  }

  lemma OverNext(result: nat, more: nat, digits: Bytes, s: nat)
    requires digits != [] && more == (result + digits[0] % 128 * Pow2(s)) % U64
    ensures Over(more, digits[1..], s + 7) == Over(result, digits, s)
  {
    var d, w, p := digits[0] % 128, Weight(digits[1..]), Pow2(s);
    Pow2Plus7(s);
    WeightSplits(d, w, p);
    ModAdd(result + d * p, w * (128 * p), U64);
  }

  /** How a run of bytes is read, with `left` digits still allowed. */
  ghost predicate ReadsAs(buf: Bytes, pos: nat, result: nat, shift: nat, left: nat, r: Result<(nat, nat), GeoError>) {
    pos <= |buf| &&
    match r
    case Ok((v, next)) =>
      && pos < next <= |buf| && next - pos <= left && EndsAtLast(buf[pos..next])
      && v == Over(result, buf[pos..next], shift)
    case Err(Truncated) => |buf| - pos <= left && Continue(buf[pos..])
    case Err(Malformed) => |buf| - pos > left && Continue(buf[pos..pos + left])
  }

  lemma ReadsLater(buf: Bytes, pos: nat, result: nat, more: nat, shift: nat, left: nat,
                   r: Result<(nat, nat), GeoError>)
    requires pos < |buf| && buf[pos] >= 128 && left > 0
    requires more == (result + buf[pos] % 128 * Pow2(shift)) % U64
    requires ReadsAs(buf, pos + 1, more, shift + 7, left - 1, r)
    ensures ReadsAs(buf, pos, result, shift, left, r)
  {
    match r
    case Ok((v, next)) =>
      var digits := buf[pos..next];
      assert digits[1..] == buf[pos + 1..next];
      assert digits[..|digits| - 1] == [buf[pos]] + buf[pos + 1..next][..next - pos - 2];
      OverNext(result, more, digits, shift);
    case Err(Truncated) => assert buf[pos..] == [buf[pos]] + buf[pos + 1..];
    case Err(Malformed) => assert buf[pos..pos + left] == [buf[pos]] + buf[pos + 1..pos + left];
  }

  lemma ReadsLast(buf: Bytes, pos: nat, result: nat, shift: nat, left: nat, v: nat)
    requires pos < |buf| && buf[pos] < 128 && left > 0
    requires v == (result + buf[pos] % 128 * Pow2(shift)) % U64
    ensures ReadsAs(buf, pos, result, shift, left, Ok((v, pos + 1)))
  {
    var digits := buf[pos..pos + 1];
    assert digits == [buf[pos]] && digits[1..] == [] && Weight([]) == 0;
    assert Weight(digits) == buf[pos] % 128;
  }

  lemma {:induction false} VarintReads(buf: Bytes, pos: nat, result: nat, k: nat)
    requires pos <= |buf| && k <= 10 && result < Pow2(7 * k)
    ensures ReadsAs(buf, pos, result, 7 * k, 10 - k, VarintFrom(buf, pos, result, 7 * k))
    decreases 10 - k
  {
    if pos == |buf| || k == 10 {
      assert buf[pos..pos] == [];
    } else {
      var d := buf[pos] % 128;
      var more := Or(result, (d * Pow2(7 * k)) % U64);
      PutDigit(result, d, 7 * k);
      if buf[pos] < 128 {
        ReadsLast(buf, pos, result, 7 * k, 10 - k, more);
      } else {
        VarintReads(buf, pos + 1, more, k + 1);
        ReadsLater(buf, pos, result, more, 7 * k, 10 - k, VarintFrom(buf, pos + 1, more, 7 * k + 7));
      }
    }
  }

  /**
   The varint reader on any bytes: up to ten bytes to the first without a continuation bit, as a 64-bit
   number; cut short if the bytes run out before, malformed if ten continue and another follows.
   */
  lemma ReadVarintMeaning(buf: Bytes, pos: nat)
    requires pos <= |buf|
    ensures match ReadVarint(buf, pos)
            case Ok((v, next)) =>
              && pos < next <= |buf| && next - pos <= 10 && EndsAtLast(buf[pos..next])
              && v == Weight(buf[pos..next]) % U64
            case Err(Truncated) => |buf| - pos <= 10 && Continue(buf[pos..])
            case Err(Malformed) => |buf| - pos > 10 && Continue(buf[pos..pos + 10])
  {
    assert Pow2(0) == 1;
    VarintReads(buf, pos, 0, 0);
  }

  // ----- fields -----

  /** The bytes from `pos` to `next` spell the field: its tag, then its value by the wire type. */
  ghost predicate Spells(buf: Bytes, pos: nat, f: Field, next: nat) {
    exists start :: pos < start <= next <= |buf| && SpellsFrom(buf, pos, start, f, next)
  }

  ghost predicate SpellsFrom(buf: Bytes, pos: nat, start: nat, f: Field, next: nat)
    requires pos <= start <= next <= |buf|
  {
    && 1 <= f.num && ReadVarint(buf, pos) == Ok((8 * f.num + WireNumber(f), start))
    && (match f
        case VarintField(_, v) => ReadVarint(buf, start) == Ok((v, next))
        case Fixed64Field(_, data) => next == start + 8 && data == buf[start..next]
        case Fixed32Field(_, data) => next == start + 4 && data == buf[start..next]
        case LenField(_, data) =>
          |data| <= next && ReadVarint(buf, start) == Ok((|data|, next - |data|)) && data == buf[next - |data|..next])
  }

  function WireNumber(f: Field): nat {
    match f
    case VarintField(_, _) => 0
    case Fixed64Field(_, _) => 1
    case LenField(_, _) => 2
    case Fixed32Field(_, _) => 5
  }

  lemma KeySplits(key: nat, num: nat, wire: nat)
    requires wire < 8
    ensures key / 8 == num && key % 8 == wire <==> key == 8 * num + wire
  {
  }

  /** A field is read exactly where one is spelt; other wire types and field number 0 are refused. */
  lemma {:induction false} ReadFieldIff(buf: Bytes, pos: nat, f: Field, next: nat)
    ensures ReadField(buf, pos) == Ok((f, next)) <==> Spells(buf, pos, f, next)
  {
    var key := ReadVarint(buf, pos);
    if key.Ok? {
      KeySplits(key.value.0, f.num, WireNumber(f));
      if ReadField(buf, pos) == Ok((f, next)) {
        assert SpellsFrom(buf, pos, key.value.1, f, next);
      }
    }
  }

  lemma {:induction false} VarintFits(buf: Bytes, pos: nat)
    requires pos <= |buf|
    ensures ReadVarint(buf, pos).Ok? ==> ReadVarint(buf, pos).value.0 < U64
  {
    ReadVarintMeaning(buf, pos);
  }

  /** What is read is well formed: its numbers and lengths fit 64 bits. */
  lemma {:induction false} ReadFieldIsWellFormed(buf: Bytes, pos: nat)
    requires pos <= |buf|
    ensures ReadField(buf, pos).Ok? ==> WellFormed(ReadField(buf, pos).value.0)
  {
    VarintFits(buf, pos);
    if ReadVarint(buf, pos).Ok? { VarintFits(buf, ReadVarint(buf, pos).value.1); }
  }

  // ----- messages -----

  /** Whatever message is accepted parses as its canonical encoding does: the same fields, written back. */
  lemma {:induction false} AcceptedIsCanonical<A>(buf: Bytes, pos: nat, acc: A,
                                                  step: (A, Field) -> Result<A, GeoError>)
    returns (fields: seq<Field>)
    requires pos <= |buf| && ParseMessage(buf, pos, acc, step).Ok?
    ensures AllWellFormed(fields)
    ensures ParseMessage(buf, pos, acc, step) == ParseMessage(Encode(fields), 0, acc, step) == Fold(fields, acc, step)
    decreases |buf| - pos
  {
    if pos == |buf| {
      fields := [];
    } else {
      var (f, next) := ReadField(buf, pos).value;
      ReadFieldIsWellFormed(buf, pos);
      var rest := AcceptedIsCanonical(buf, next, step(acc, f).value, step);
      fields := [f] + rest;
      assert fields[1..] == rest;
    }
    ParseEncoded(fields, acc, step);
  }
}

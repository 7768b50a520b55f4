/** Base64 as the source reads and writes it: `crates/core/src/base64.rs`, section 4 of RFC 4648. */
module Base64 {
  import opened Bits
  import opened Wrappers
  import opened Sequences

  const U32 := 0x1_0000_0000

  /** The standard alphabet. */
  function Digit(v: nat): (c: char)
    requires v < 64
  {
    if v < 26 then ('A' as int + v) as char
    else if v < 52 then ('a' as int + v - 26) as char
    else if v < 62 then ('0' as int + v - 52) as char
    else if v == 62 then '+'
    else '/'
  }

  /** The decode table: the standard alphabet and the URL-safe aliases. */
  function DigitValue(c: char): (r: Option<nat>)
    ensures r.Some? ==> r.value < 64
  {
    if 'A' <= c <= 'Z' then Some(c as int - 'A' as int)
    else if 'a' <= c <= 'z' then Some(c as int - 'a' as int + 26)
    else if '0' <= c <= '9' then Some(c as int - '0' as int + 52)
    else if c == '+' || c == '-' then Some(62)
    else if c == '/' || c == '_' then Some(63)
    else None
  }

  predicate Ignored(c: char) {
    c == '=' || c == '\r' || c == '\n' || c == ' ' || c == '\t'
  }

  lemma DigitRoundTrip(v: nat)
    requires v < 64
    ensures DigitValue(Digit(v)) == Some(v) && !Ignored(Digit(v))
  {
  }

  /**
   The 32-bit word after one more digit: `(buf << 6) | v`. The low six bits are zero after the
   shift, so or-ing is adding.
   */
  function PushDigit(buf: nat, v: nat): nat {
    buf * 64 % U32 + v
  }

  /** `(buf >> bits) as u8`. */
  function ByteAt(buf: nat, bits: nat): byte {
    buf / Pow2(bits) % 256
  }

  function Prepend(b: byte, r: Option<seq<byte>>): Option<seq<byte>> {
    match r
    case None => None
    case Some(tail) => Some([b] + tail)
  }

  /** The decoder from a given accumulator, which is never cleared: old digits are shifted out of it. */
  function DecodeFrom(s: string, buf: nat, bits: nat): Option<seq<byte>> {
    if s == [] then Some([])
    else if Ignored(s[0]) then DecodeFrom(s[1..], buf, bits)
    else
      match DigitValue(s[0])
      case None => None
      case Some(v) =>
        var more := PushDigit(buf, v);
        if bits + 6 >= 8 then Prepend(ByteAt(more, bits - 2), DecodeFrom(s[1..], more, bits - 2))
        else DecodeFrom(s[1..], more, bits + 6)
  }

  /** `decode_loose`. */
  function DecodeLoose(s: string): Option<seq<byte>> {
    DecodeFrom(s, 0, 0)
  }

  /** One to three bytes as four characters. */
  function EncodeChunk(chunk: seq<byte>): (s: string)
    requires 1 <= |chunk| <= 3
    ensures |s| == 4
  {
    var b0: nat, b1: nat, b2: nat := chunk[0], if |chunk| > 1 then chunk[1] else 0, if |chunk| > 2 then chunk[2] else 0;
    var n := b0 * 0x1_0000 + b1 * 0x100 + b2;
    [Digit(n / 0x4_0000 % 64), Digit(n / 0x1000 % 64),
     if |chunk| > 1 then Digit(n / 64 % 64) else '=',
     if |chunk| > 2 then Digit(n % 64) else '=']
  }

  /** `encode_standard`. */
  function EncodeStandard(bytes: seq<byte>): string {
    if bytes == [] then []
    else if |bytes| < 3 then EncodeChunk(bytes)
    else EncodeChunk(bytes[..3]) + EncodeStandard(bytes[3..])
  }

  // ----- the inverse -----

  lemma Shifts()
    ensures Pow2(0) == 1 && Pow2(2) == 4 && Pow2(4) == 16
  {
    assert Pow2(1) == 2;
    Pow2Square(1, 2);
    Pow2Square(2, 4);
  }

  /** The byte above the low `k` values of a word that ends in that byte. */
  lemma ByteAbove(word: nat, high: int, b: byte, k: nat, low: nat)
    requires low < k && word == 256 * k * high + k * b + low
    ensures word / k % 256 == b && word % k == low
  {
    Distribute(k, 256, high, b);
    QuotientUnique(word, k, 256 * high + b, low);
    QuotientUnique(256 * high + b, 256, high, b);
  }

  /** A digit that completes a byte started by the six bits before it. */
  lemma SecondDigit(buf: nat, b: byte, low: nat)
    requires buf % 64 == b / 4 && low < 16
    ensures ByteAt(PushDigit(buf, b % 4 * 16 + low), 4) == b
    ensures PushDigit(buf, b % 4 * 16 + low) % 16 == low
  {
    Shifts();
    var high: int := buf / 64 - 0x10_0000 * (buf * 64 / U32);
    var word := PushDigit(buf, b % 4 * 16 + low);
    assert word == 4096 * high + 16 * b + low;
    ByteAbove(word, high, b, 16, low);
  }

  /** A digit that completes a byte started by the four bits before it. */
  lemma ThirdDigit(buf: nat, b: byte, low: nat)
    requires buf % 16 == b / 16 && low < 4
    ensures ByteAt(PushDigit(buf, b % 16 * 4 + low), 2) == b
    ensures PushDigit(buf, b % 16 * 4 + low) % 4 == low
  {
    Shifts();
    var high: int := buf / 16 - 0x40_0000 * (buf * 64 / U32);
    var word := PushDigit(buf, b % 16 * 4 + low);
    assert word == 1024 * high + 4 * b + low;
    ByteAbove(word, high, b, 4, low);
  }

  /** A digit that completes a byte started by the two bits before it. */
  lemma FourthDigit(buf: nat, b: byte)
    requires buf % 4 == b / 64
    ensures ByteAt(PushDigit(buf, b % 64), 0) == b
  {
    Shifts();
    var high: int := buf / 4 - 0x100_0000 * (buf * 64 / U32);
    var word := PushDigit(buf, b % 64);
    assert word == 256 * high + b;
    ByteAbove(word, high, b, 1, 0);
  }

  lemma FirstDigit(buf: nat, v: nat)
    requires v < 64
    ensures PushDigit(buf, v) % 64 == v
  {
    QuotientUnique(PushDigit(buf, v), 64, buf - 0x400_0000 * (buf * 64 / U32), v);
  }

  lemma FirstDigits(b0: nat, b1: nat, b2: nat)
    requires b0 < 256 && b1 < 256 && b2 < 256
    ensures var n := b0 * 0x1_0000 + b1 * 0x100 + b2;
            && n / 0x4_0000 % 64 == b0 / 4
            && n / 0x1000 % 64 == b0 % 4 * 16 + b1 / 16
            && n / 64 % 64 == b1 % 16 * 4 + b2 / 64
            && n % 64 == b2 % 64
  {
    var n := b0 * 0x1_0000 + b1 * 0x100 + b2;
    QuotientUnique(n, 0x4_0000, b0 / 4, b0 % 4 * 0x1_0000 + b1 * 0x100 + b2);
    QuotientUnique(n, 0x1000, b0 * 16 + b1 / 16, b1 % 16 * 0x100 + b2);
    QuotientUnique(b0 * 16 + b1 / 16, 64, b0 / 4, b0 % 4 * 16 + b1 / 16);
    QuotientUnique(n, 64, b0 * 1024 + b1 * 4 + b2 / 64, b2 % 64);
    QuotientUnique(b0 * 1024 + b1 * 4 + b2 / 64, 64, b0 * 16 + b1 / 16, b1 % 16 * 4 + b2 / 64);
  }

  /** One digit without output, and one digit with. */
  lemma DecodeQuiet(v: nat, rest: string, buf: nat, bits: nat)
    requires v < 64 && bits < 2
    ensures DecodeFrom([Digit(v)] + rest, buf, bits) == DecodeFrom(rest, PushDigit(buf, v), bits + 6)
  {
    DigitRoundTrip(v);
    assert ([Digit(v)] + rest)[1..] == rest;
  }

  lemma DecodeOut(v: nat, rest: string, buf: nat, bits: nat)
    requires v < 64 && bits >= 2
    ensures DecodeFrom([Digit(v)] + rest, buf, bits) ==
            Prepend(ByteAt(PushDigit(buf, v), bits - 2), DecodeFrom(rest, PushDigit(buf, v), bits - 2))
  {
    DigitRoundTrip(v);
    assert ([Digit(v)] + rest)[1..] == rest;
  }

  /** The second digit of a chunk completes its first byte, whatever the word held before. */
  lemma DecodeFirstByte(b0: byte, low: nat, rest: string, buf: nat) returns (more: nat)
    requires low < 16
    ensures more % 16 == low
    ensures DecodeFrom([Digit(b0 / 4)] + ([Digit(b0 % 4 * 16 + low)] + rest), buf, 0) ==
              Prepend(b0, DecodeFrom(rest, more, 4))
  {
    var mid := PushDigit(buf, b0 / 4);
    DecodeQuiet(b0 / 4, [Digit(b0 % 4 * 16 + low)] + rest, buf, 0);
    FirstDigit(buf, b0 / 4);
    more := PushDigit(mid, b0 % 4 * 16 + low);
    DecodeOut(b0 % 4 * 16 + low, rest, mid, 6);
    SecondDigit(mid, b0, low);
  }

  lemma DecodeSecondByte(b1: byte, low: nat, rest: string, buf: nat) returns (more: nat)
    requires low < 4 && buf % 16 == b1 / 16
    ensures more % 4 == low
    ensures DecodeFrom([Digit(b1 % 16 * 4 + low)] + rest, buf, 4) == Prepend(b1, DecodeFrom(rest, more, 2))
  {
    more := PushDigit(buf, b1 % 16 * 4 + low);
    DecodeOut(b1 % 16 * 4 + low, rest, buf, 4);
    ThirdDigit(buf, b1, low);
  }

  lemma DecodeThirdByte(b2: byte, rest: string, buf: nat) returns (more: nat)
    requires buf % 4 == b2 / 64
    ensures DecodeFrom([Digit(b2 % 64)] + rest, buf, 2) == Prepend(b2, DecodeFrom(rest, more, 0))
  {
    more := PushDigit(buf, b2 % 64);
    DecodeOut(b2 % 64, rest, buf, 2);
    FourthDigit(buf, b2);
  }

  lemma DecodePadding(rest: string, buf: nat, bits: nat)
    ensures DecodeFrom(['='] + rest, buf, bits) == DecodeFrom(rest, buf, bits)
  {
    assert (['='] + rest)[1..] == rest;
  }

  lemma FourCharacters(a: char, b: char, c: char, d: char, rest: string)
    ensures [a, b, c, d] + rest == [a] + ([b] + ([c] + ([d] + rest)))
  {
  }

  lemma DecodeWholeChunk(chunk: seq<byte>, rest: string, buf: nat) returns (more: nat)
    requires |chunk| == 3
    ensures DecodeFrom(EncodeChunk(chunk) + rest, buf, 0) ==
            Prepend(chunk[0], Prepend(chunk[1], Prepend(chunk[2], DecodeFrom(rest, more, 0))))
  {
    var b0, b1, b2 := chunk[0], chunk[1], chunk[2];
    FirstDigits(b0, b1, b2);
    var c0, c1, c2, c3 := Digit(b0 / 4), Digit(b0 % 4 * 16 + b1 / 16), Digit(b1 % 16 * 4 + b2 / 64), Digit(b2 % 64);
    assert EncodeChunk(chunk) == [c0, c1, c2, c3];
    FourCharacters(c0, c1, c2, c3, rest);
    var m1 := DecodeFirstByte(b0, b1 / 16, [c2] + ([c3] + rest), buf);
    var m2 := DecodeSecondByte(b1, b2 / 64, [c3] + rest, m1);
    more := DecodeThirdByte(b2, rest, m2);
  }

  lemma ShortChunks(b0: byte, b1: byte)
    ensures EncodeChunk([b0]) == [Digit(b0 / 4), Digit(b0 % 4 * 16 + 0), '=', '=']
    ensures EncodeChunk([b0, b1]) == [Digit(b0 / 4), Digit(b0 % 4 * 16 + b1 / 16), Digit(b1 % 16 * 4), '=']
  {
    FirstDigits(b0, 0, 0);
    FirstDigits(b0, b1, 0);
  }

  lemma DecodeTwoPaddings(buf: nat)
    ensures DecodeFrom(['='] + (['='] + ""), buf, 4) == Some([])
  {
    DecodePadding(['='] + "", buf, 4);
    DecodePadding("", buf, 4);
  }

  lemma DecodeOneByte(b0: byte, buf: nat)
    ensures DecodeFrom(EncodeChunk([b0]), buf, 0) == Some([b0])
  {
    ShortChunks(b0, 0);
    FourCharacters(Digit(b0 / 4), Digit(b0 % 4 * 16 + 0), '=', '=', "");
    assert EncodeChunk([b0]) + "" == EncodeChunk([b0]);
    var more := DecodeFirstByte(b0, 0, ['='] + (['='] + ""), buf);
    DecodeTwoPaddings(more);
    assert [b0] + [] == [b0];
  }

  lemma DecodeTwoBytes(b0: byte, b1: byte, buf: nat)
    ensures DecodeFrom(EncodeChunk([b0, b1]), buf, 0) == Some([b0, b1])
  {
    ShortChunks(b0, b1);
    var c2 := Digit(b1 % 16 * 4);
    FourCharacters(Digit(b0 / 4), Digit(b0 % 4 * 16 + b1 / 16), c2, '=', "");
    assert EncodeChunk([b0, b1]) + "" == EncodeChunk([b0, b1]);
    var m1 := DecodeFirstByte(b0, b1 / 16, [c2] + (['='] + ""), buf);
    var m2 := DecodeSecondByte(b1, 0, ['='] + "", m1);
    DecodePadding("", m2, 2);
    assert [b0] + ([b1] + []) == [b0, b1];
  }

  lemma PrependThree(bytes: seq<byte>)
    requires |bytes| >= 3
    ensures Prepend(bytes[..3][0], Prepend(bytes[..3][1], Prepend(bytes[..3][2], Some(bytes[3..])))) == Some(bytes)
  {
    assert bytes == [bytes[0]] + ([bytes[1]] + ([bytes[2]] + bytes[3..]));
  }

  /** Decoding undoes encoding, from any state the 32-bit word was left in. */
  lemma {:induction false} DecodeOfEncode(bytes: seq<byte>, buf: nat)
    ensures DecodeFrom(EncodeStandard(bytes), buf, 0) == Some(bytes)
    decreases |bytes|
  {
    if bytes == [] {
    } else if |bytes| < 3 {
      if |bytes| == 1 {
        assert bytes == [bytes[0]];
        DecodeOneByte(bytes[0], buf);
      } else {
        assert bytes == [bytes[0], bytes[1]];
        DecodeTwoBytes(bytes[0], bytes[1], buf);
      }
    } else {
      var more := DecodeWholeChunk(bytes[..3], EncodeStandard(bytes[3..]), buf);
      DecodeOfEncode(bytes[3..], more);
      PrependThree(bytes);
    }
  }

  lemma Base64RoundTrip(bytes: seq<byte>)
    ensures DecodeLoose(EncodeStandard(bytes)) == Some(bytes)
  {
    DecodeOfEncode(bytes, 0);
  }

  /** The characters the encoder can print. */
  predicate Printable(c: char) {
    'A' <= c <= 'Z' || 'a' <= c <= 'z' || '0' <= c <= '9' || c == '+' || c == '/' || c == '='
  }

  lemma ChunkIsPrintable(chunk: seq<byte>)
    requires 1 <= |chunk| <= 3
    ensures forall i :: 0 <= i < 4 ==> Printable(EncodeChunk(chunk)[i])
  {
    assert forall v: nat :: v < 64 ==> Printable(Digit(v));
  }

  lemma {:induction false} EncodeIsPrintable(bytes: seq<byte>)
    ensures forall i :: 0 <= i < |EncodeStandard(bytes)| ==> Printable(EncodeStandard(bytes)[i])
    decreases |bytes|
  {
    if |bytes| >= 3 {
      ChunkIsPrintable(bytes[..3]);
      EncodeIsPrintable(bytes[3..]);
    } else if bytes != [] {
      ChunkIsPrintable(bytes);
    }
  }

  // ----- which texts decode -----

  /** Both alphabets, padding and white space. */
  predicate Decodable(c: char) {
    'A' <= c <= 'Z' || 'a' <= c <= 'z' || '0' <= c <= '9' || c in "+/-_" || c in "= \r\n\t"
  }

  /** The text in the standard alphabet, without padding and white space. */
  function Canonical(s: string): string {
    if s == [] then []
    else
      var c, rest := s[0], Canonical(s[1..]);
      if c in "= \r\n\t" then rest
      else if c == '-' then ['+'] + rest
      else if c == '_' then ['/'] + rest
      else [c] + rest
  }

  lemma DecodableIff(c: char)
    ensures Ignored(c) <==> c in "= \r\n\t"
    ensures Decodable(c) <==> Ignored(c) || DigitValue(c).Some?
  {
    var blanks, marks := "= \r\n\t", "+/-_";
    assert blanks[0] == '=' && blanks[1] == ' ' && blanks[2] == '\r' && blanks[3] == '\n' && blanks[4] == '\t';
    assert marks[0] == '+' && marks[1] == '/' && marks[2] == '-' && marks[3] == '_';
  }

  /** A text is refused exactly when it holds a character that is none of these. */
  lemma {:induction false} DecodesIff(s: string, buf: nat, bits: nat)
    ensures DecodeFrom(s, buf, bits).Some? <==> forall i :: 0 <= i < |s| ==> Decodable(s[i])
  {
    if s != [] {
      DecodableIff(s[0]);
      assert (forall i :: 0 <= i < |s| ==> Decodable(s[i])) <==>
        Decodable(s[0]) && forall i :: 0 <= i < |s[1..]| ==> Decodable(s[1..][i]) by {
        assert forall i :: 0 < i < |s| ==> s[i] == s[1..][i - 1];
      }
      var more := if DigitValue(s[0]).Some? then PushDigit(buf, DigitValue(s[0]).value) else buf;
      if Ignored(s[0]) {
        DecodesIff(s[1..], buf, bits);
      } else if bits >= 2 {
        DecodesIff(s[1..], more, bits - 2);
      } else {
        DecodesIff(s[1..], more, bits + 6);
      }
    }
  }

  /** Padding, white space and the URL-safe aliases make no difference to what comes out. */
  lemma {:induction false} DecodesAsCanonical(s: string, buf: nat, bits: nat)
    ensures DecodeFrom(s, buf, bits) == DecodeFrom(Canonical(s), buf, bits)
  {
    if s != [] {
      var c, rest := s[0], s[1..];
      DecodableIff(c);
      if Ignored(c) {
        DecodesAsCanonical(rest, buf, bits);
      } else {
        var d := if c == '-' then '+' else if c == '_' then '/' else c;
        assert Canonical(s) == [d] + Canonical(rest) && ([d] + Canonical(rest))[1..] == Canonical(rest);
        assert DigitValue(d) == DigitValue(c) && !Ignored(d);
        if DigitValue(c).Some? {
          DecodesAsCanonical(rest, PushDigit(buf, DigitValue(c).value), if bits >= 2 then bits - 2 else bits + 6);
        }
      }
    }
  }

  // ----- the loops of the source -----

  /** What a decoder that has already produced `out` ends with. */
  function Resume(out: seq<byte>, r: Option<seq<byte>>): Option<seq<byte>> {
    match r
    case None => None
    case Some(rest) => Some(out + rest)
  }

  lemma ResumePrepend(out: seq<byte>, b: byte, r: Option<seq<byte>>)
    ensures Resume(out, Prepend(b, r)) == Resume(out + [b], r)
  {
    if r.Some? { assert out + ([b] + r.value) == (out + [b]) + r.value; }
  }

  lemma ResumeEmpty(r: Option<seq<byte>>)
    ensures Resume([], r) == r
  {
    if r.Some? { assert [] + r.value == r.value; }
  }

  method Decode(s: string) returns (r: Option<seq<byte>>)
    ensures r == DecodeLoose(s)
  {
    var out: seq<byte> := [];
    var buf: nat, bits: nat := 0, 0;
    var i := 0;
    assert s[0..] == s;
    ResumeEmpty(DecodeLoose(s));
    while i < |s|
      invariant 0 <= i <= |s| && bits < 8
      invariant DecodeLoose(s) == Resume(out, DecodeFrom(s[i..], buf, bits))
    {
      assert s[i..][0] == s[i] && s[i..][1..] == s[i + 1..];
      if !Ignored(s[i]) {
        var v := DigitValue(s[i]);
        if v.None? { return None; }
        buf := PushDigit(buf, v.value);
        bits := bits + 6;
        if bits >= 8 {
          bits := bits - 8;
          ResumePrepend(out, ByteAt(buf, bits), DecodeFrom(s[i + 1..], buf, bits));
          out := out + [ByteAt(buf, bits)];
        }
      }
      i := i + 1;
    }
    assert s[i..] == [] && out + [] == out;
    return Some(out);
  }

  /** The encoding from one chunk on. */
  lemma {:induction false} EncodeNext(bytes: seq<byte>, i: nat, end: nat)
    requires i < |bytes| && end == (if i + 3 <= |bytes| then i + 3 else |bytes|)
    ensures EncodeStandard(bytes[i..]) == EncodeChunk(bytes[i..end]) + EncodeStandard(bytes[end..])
  {
    var rest := bytes[i..];
    if i + 3 <= |bytes| {
      assert rest[..3] == bytes[i..end] && rest[3..] == bytes[end..];
    } else {
      assert rest == bytes[i..end] && bytes[end..] == [];
      assert EncodeChunk(rest) + [] == EncodeChunk(rest);
    }
  }

  method Encode(bytes: seq<byte>) returns (out: string)
    ensures out == EncodeStandard(bytes)
  {
    out := "";
    var i := 0;
    assert bytes[0..] == bytes && "" + EncodeStandard(bytes) == EncodeStandard(bytes);
    while i < |bytes|
      invariant 0 <= i <= |bytes|
      invariant EncodeStandard(bytes) == out + EncodeStandard(bytes[i..])
    {
      var end := if i + 3 <= |bytes| then i + 3 else |bytes|;
      EncodeNext(bytes, i, end);
      Regroup(out, EncodeChunk(bytes[i..end]), EncodeStandard(bytes[end..]));
      out := out + EncodeChunk(bytes[i..end]);
      i := end;
    }
    assert bytes[i..] == [] && out + [] == out;
  }
}

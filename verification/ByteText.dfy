/** Text as the bytes it is stored in: one `char` stands for one byte. */
module ByteText {
  import opened Bits

  predicate IsByteText(s: string) {
    forall i :: 0 <= i < |s| ==> s[i] as int < 256
  }

  predicate IsAscii(s: string) {
    forall i :: 0 <= i < |s| ==> s[i] as int < 128
  }

  function TextOf(bytes: seq<byte>): (s: string)
    ensures |s| == |bytes| && IsByteText(s)
    ensures forall i :: 0 <= i < |s| ==> s[i] == bytes[i] as char
  {
    seq(|bytes|, i requires 0 <= i < |bytes| => bytes[i] as char)
  }

  function BytesOf(s: string): (b: seq<byte>)
    requires IsByteText(s)
    ensures |b| == |s| && forall i :: 0 <= i < |s| ==> b[i] == s[i] as int
  {
    seq(|s|, i requires 0 <= i < |s| => s[i] as int)
  }

  lemma TextRoundTrip(s: string)
    requires IsByteText(s)
    ensures TextOf(BytesOf(s)) == s
  {
  }
}

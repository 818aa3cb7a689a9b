/**
  Bytes, byte strings and the text-to-bytes conversions the HTTP handler uses:
  Latin-1 encoding of header text and the decimal rendering `str(n)` of a length.
 */
module Bytes {

  newtype byte = x: int | 0 <= x < 256

  /** `b.startswith(b'\xff\xd8')`: the chunk opens with the JPEG start-of-image marker. */
  predicate StartsWithSoi(b: seq<byte>)
    ensures StartsWithSoi(b) <==> |b| >= 2 && b[..2] == [0xFF, 0xD8]
  {
    |b| >= 2 && b[0] == 0xFF && b[1] == 0xD8
  }

  /** `b''.join(chunks)`. */
  function Flatten(chunks: seq<seq<byte>>): seq<byte>
  {
    if chunks == [] then [] else Flatten(chunks[..|chunks| - 1]) + chunks[|chunks| - 1]
  }

  lemma {:induction false} FlattenAppend(a: seq<seq<byte>>, b: seq<seq<byte>>)
    ensures Flatten(a + b) == Flatten(a) + Flatten(b)
    decreases |b|
  {
    if b == [] {
      assert a + b == a;
    } else {
      var b' := b[..|b| - 1];
      assert (a + b)[..|a + b| - 1] == a + b';
      FlattenAppend(a, b');
    }
  }

  lemma FlattenSnoc(chunks: seq<seq<byte>>, c: seq<byte>)
    ensures Flatten(chunks + [c]) == Flatten(chunks) + c
  {
    assert (chunks + [c])[..|chunks|] == chunks;
  }

  lemma FlattenSingle(c: seq<byte>)
    ensures Flatten([c]) == c
  {
    assert [c][..0] == [];
  }

  /** Characters that Latin-1 can encode. */
  predicate IsLatin1(s: string)
  {
    forall i :: 0 <= i < |s| ==> s[i] as int < 256
  }

  /** `s.encode('latin-1')`: one byte per character, same code point. */
  function Latin1(s: string): (b: seq<byte>)
    requires IsLatin1(s)
    ensures |b| == |s|
    ensures forall i :: 0 <= i < |s| ==> b[i] as int == s[i] as int
  {
    seq(|s|, i requires 0 <= i < |s| => s[i] as int as byte)
  }

  lemma Latin1Concat(s: string, t: string)
    requires IsLatin1(s) && IsLatin1(t)
    ensures IsLatin1(s + t) && Latin1(s + t) == Latin1(s) + Latin1(t)
  {
    assert IsLatin1(s + t) by {
      forall i | 0 <= i < |s + t| ensures (s + t)[i] as int < 256 {
        if i >= |s| { assert (s + t)[i] == t[i - |s|]; }
      }
    }
  }

  predicate IsDigit(c: char)
  {
    '0' <= c <= '9'
  }

  predicate IsDigitByte(b: byte)
  {
    0x30 <= b <= 0x39
  }

  predicate AllDigits(s: string)
  {
    forall i :: 0 <= i < |s| ==> IsDigit(s[i])
  }

  /** `str(n)` for a non-negative integer: decimal digits, no sign, no leading zero. */
  function Decimal(n: nat): (s: string)
    ensures |s| >= 1 && AllDigits(s) && IsLatin1(s)
    ensures |s| > 1 ==> s[0] != '0'
    decreases n
  {
    if n < 10 then [('0' as int + n) as char]
    else
      var prefix := Decimal(n / 10);
      prefix + [('0' as int + n % 10) as char]
  }

  /** The value of a run of ASCII decimal digit bytes. */
  function DigitsValue(b: seq<byte>): nat
    requires forall i :: 0 <= i < |b| ==> IsDigitByte(b[i])
  {
    if b == [] then 0
    else
      var last := b[|b| - 1];
      assert IsDigitByte(last);
      DigitsValue(b[..|b| - 1]) * 10 + (last as int - 0x30)
  }

  /** The decimal rendering, sent as Latin-1 bytes, reads back as the number it renders. */
  lemma {:induction false} DecimalRoundTrip(n: nat)
    ensures IsLatin1(Decimal(n))
    ensures forall i :: 0 <= i < |Decimal(n)| ==> IsDigitByte(Latin1(Decimal(n))[i])
    ensures DigitsValue(Latin1(Decimal(n))) == n
    decreases n
  {
    var s := Decimal(n);
    assert IsLatin1(s);
    var b := Latin1(s);
    if n >= 10 {
      DecimalRoundTrip(n / 10);
      var p := Decimal(n / 10);
      assert s == p + [('0' as int + n % 10) as char];
      assert b[..|b| - 1] == Latin1(p);
    }
  }
}

/** Package lengths, section 20.2.4 of the ACPI specification. */
module PkgLengths {
  import opened Basics
  import opened ByteStrings

  const MAX_LENGTH: nat := 0x1000_0000

  /** How many bytes `create_pkg_length` spends on a body of `len` bytes. */
  function LengthSize(len: nat): (n: nat)
    ensures 1 <= n <= 4
  {
    if len < 0x3f then 1 else if len < 0xffe then 2 else if len < 0xf_fffd then 3 else 4
  }

  function Announced(len: nat, includeSelf: bool): nat {
    len + if includeSelf then LengthSize(len) else 0
  }

  function PkgLength(len: nat, includeSelf: bool): (r: seq<Byte>)
    ensures |r| == LengthSize(len)
  {
    var follow := LengthSize(len) - 1;
    var length := Announced(len, includeSelf);
    if follow == 0 then [length % 256] else [64 * follow + length % 16] + Le(length / 16, follow)
  }

  lemma LeBytes(length: nat)
    ensures Le(length / 16, 1) == [length / 16 % 256]
    ensures Le(length / 16, 2) == [length / 16 % 256, length / 4096 % 256]
    ensures Le(length / 16, 3) == [length / 16 % 256, length / 4096 % 256, length / 0x10_0000 % 256]
  {
    var low := length / 16;
    assert length / 4096 == low / 256 && length / 0x10_0000 == low / 256 / 256;
    assert Le(low, 1) == [low % 256] + Le(low / 256, 0);
    assert Le(low / 256, 1) == [low / 256 % 256] + Le(low / 256 / 256, 0);
    assert Le(low / 256, 2) == [low / 256 % 256] + Le(low / 256 / 256, 1);
    assert Le(low / 256 / 256, 1) == [low / 256 / 256 % 256] + Le(low / 256 / 256 / 256, 0);
  }

  method CreatePkgLength(len: nat, includeSelf: bool) returns (result: seq<Byte>)
    ensures result == PkgLength(len, includeSelf)
  {
    hide Le;
    result := [];
    var lengthLength := if len < 0x3f then 1 else if len < 0xffe then 2 else if len < 0xf_fffd then 3 else 4;
    var length := len + if includeSelf then lengthLength else 0;
    LeBytes(length);
    if lengthLength == 1 {
      result := result + [length % 256];
    } else if lengthLength == 2 {
      result := result + [1 * 64 + length % 16];
      result := result + [length / 16 % 256];
    } else if lengthLength == 3 {
      result := result + [2 * 64 + length % 16];
      result := result + [length / 16 % 256];
      result := result + [length / 4096 % 256];
    } else {
      result := result + [3 * 64 + length % 16];
      result := result + [length / 16 % 256];
      result := result + [length / 4096 % 256];
      result := result + [length / 0x10_0000 % 256];
    }
  }

  /**
  Reads a package length: its value and the number of bytes it takes up.  The two top bits of the lead byte
  count the bytes that follow; if there are any, bits 4 and 5 must be zero.
  */
  function DecodeLength(b: seq<Byte>): (r: Option<(nat, nat)>)
    ensures r.Some? ==> 1 <= r.value.1 <= 4 && r.value.1 <= |b|
  {
    if b == [] then None
    else
      var follow := b[0] / 64;
      if follow == 0 then Some((b[0] % 64, 1))
      else if b[0] / 16 % 4 != 0 || |b| <= follow then None
      else Some((b[0] % 16 + 16 * FromLe(b[1..follow + 1]), follow + 1))
  }

  /** What a length of `size` bytes can announce. */
  function Capacity(size: nat): nat {
    if size == 1 then 64 else if size == 2 then 0x1000 else if size == 3 then 0x10_0000 else MAX_LENGTH
  }

  lemma DecodedBound(b: seq<Byte>)
    requires DecodeLength(b).Some?
    ensures DecodeLength(b).value.0 < Capacity(DecodeLength(b).value.1)
  {
    Powers();
    var follow := b[0] / 64;
    if follow > 0 { FromLeBound(b[1..follow + 1]); }
  }

  /** The value that the encoding of a length decodes to. */
  lemma LengthDecodes(len: nat, includeSelf: bool, rest: seq<Byte>)
    ensures DecodeLength(PkgLength(len, includeSelf) + rest) ==
            Some((Announced(len, includeSelf) % MAX_LENGTH, LengthSize(len)))
  {
    hide Le, DecodeLength;
    var follow, length := LengthSize(len) - 1, Announced(len, includeSelf);
    if follow > 0 {
      MultiByte(follow, length, rest);
      Nibbles(length, follow);
    } else {
      OneByte(length, rest);
    }
  }

  lemma OneByte(length: nat, rest: seq<Byte>)
    requires length < 64
    ensures DecodeLength([length % 256] + rest) == Some((length, 1))
  {
  }

  lemma MultiByte(follow: nat, length: nat, rest: seq<Byte>)
    requires 1 <= follow <= 3
    ensures DecodeLength([64 * follow + length % 16] + Le(length / 16, follow) + rest) ==
            Some((length % 16 + 16 * (length / 16 % Pow256(follow)), follow + 1))
  {
    hide Le, FromLe, Pow256;
    var b := [64 * follow + length % 16] + Le(length / 16, follow) + rest;
    LeadByte(follow, length);
    assert b[1..follow + 1] == Le(length / 16, follow);
    LeRoundTrip(length / 16, follow);
  }

  lemma LeadByte(follow: nat, length: nat)
    requires follow <= 3
    ensures (64 * follow + length % 16) / 64 == follow
    ensures (64 * follow + length % 16) / 16 % 4 == 0
    ensures (64 * follow + length % 16) % 16 == length % 16
  {
  }

  lemma Nibbles(length: nat, follow: nat)
    requires 1 <= follow <= 3 && (follow < 3 ==> length < Capacity(follow + 1))
    ensures length % 16 + 16 * (length / 16 % Pow256(follow)) == length % MAX_LENGTH
  {
    Powers();
    var w := if follow == 1 then 0x100 else if follow == 2 then 0x1_0000 else 0x100_0000;
    if follow < 3 {
      assert length / 16 < w;
      Remainder(length / 16, w, 0, length / 16);
      Remainder(length, MAX_LENGTH, 0, length);
    } else {
      HighNibbles(length);
    }
  }

  lemma HighNibbles(length: nat)
    ensures length % 16 + 16 * (length / 16 % 0x100_0000) == length % MAX_LENGTH
  {
    var q, r := length / MAX_LENGTH, length % MAX_LENGTH;
    assert length / 16 == 0x100_0000 * q + r / 16;
    Remainder(length / 16, 0x100_0000, q, r / 16);
  }

  /** A length is decoded correctly exactly when it is below 2^28. */
  lemma LengthExact(len: nat, includeSelf: bool, rest: seq<Byte>)
    ensures DecodeLength(PkgLength(len, includeSelf) + rest) == Some((Announced(len, includeSelf), LengthSize(len)))
            <==> Announced(len, includeSelf) < MAX_LENGTH
  {
    hide DecodeLength, PkgLength, Announced;
    LengthDecodes(len, includeSelf, rest);
  }

  /** Nothing shorter announces a body of `len` bytes together with its own size. */
  lemma LengthShortest(len: nat, b: seq<Byte>)
    requires DecodeLength(b).Some? && DecodeLength(b).value.0 >= len + DecodeLength(b).value.1
    ensures LengthSize(len) <= DecodeLength(b).value.1
    ensures Announced(len, true) < MAX_LENGTH
  {
    DecodedBound(b);
  }

  /** Lengths of named fields, which do not include themselves, are sometimes a byte longer than necessary. */
  lemma FieldLengthShortest(len: nat)
    requires len < MAX_LENGTH
    ensures (forall b :: DecodeLength(b).Some? && DecodeLength(b).value.0 == len ==>
                           LengthSize(len) <= DecodeLength(b).value.1)
            <==> len !in {63, 4094, 4095, 0xf_fffd, 0xf_fffe, 0xf_ffff}
  {
    forall b | DecodeLength(b).Some? && DecodeLength(b).value.0 == len
      ensures len < Capacity(DecodeLength(b).value.1)
    {
      DecodedBound(b);
    }
    if len in {63, 4094, 4095, 0xf_fffd, 0xf_fffe, 0xf_ffff} {
      var b: seq<Byte> := ShorterField(len);
      assert DecodeLength(b) == Some((len, LengthSize(len) - 1));
    }
  }

  lemma ShorterField(len: nat) returns (b: seq<Byte>)
    requires len in {63, 4094, 4095, 0xf_fffd, 0xf_fffe, 0xf_ffff}
    ensures DecodeLength(b) == Some((len, LengthSize(len) - 1))
  {
    Powers();
    if len == 63 {
      b := [63];
    } else {
      var follow := if len < 0x1000 then 1 else 2;
      b := [64 * follow + len % 16] + Le(len / 16, follow);
      MultiByte(follow, len, []);
      assert b + [] == b;
    }
  }
}

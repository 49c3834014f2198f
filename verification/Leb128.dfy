/** LEB128 numbers (section 7.6 of DWARF Version 4): what a byte string denotes, and its encoders. */
module Leb128 {
  import opened Words

  /** Exactly one byte, the last, has its high bit clear. */
  predicate Terminated(bs: seq<byte>) {
    |bs| > 0 && bs[|bs| - 1] < 128 && forall i :: 0 <= i < |bs| - 1 ==> bs[i] >= 128
  }

  /** The unsigned number: seven bits a byte, least significant first, no bound on the length. */
  function Unsigned(bs: seq<byte>): nat {
    if bs == [] then 0 else bs[0] % 128 + 128 * Unsigned(bs[1..])
  }

  /** The signed number: bit 6 of the last byte is the sign. */
  function Signed(bs: seq<byte>): int {
    if bs == [] then 0
    else if |bs| == 1 then (if bs[0] % 128 < 64 then bs[0] % 128 else bs[0] % 128 - 128)
    else bs[0] % 128 + 128 * Signed(bs[1..])
  }

  /** The position after the first byte at or after `pos` whose high bit is clear. */
  function Stop(data: seq<byte>, pos: nat): (r: Option<nat>)
    ensures r.Some? ==> pos < r.value <= |data| && Terminated(data[pos..r.value])
    decreases |data| - pos
  {
    if pos >= |data| then None
    else if data[pos] < 128 then Some(pos + 1)
    else Stop(data, pos + 1)
  }

  lemma {:induction false} StopUnique(data: seq<byte>, pos: nat, end: nat)
    requires pos < end <= |data| && Terminated(data[pos..end])
    ensures Stop(data, pos) == Some(end)
    decreases end - pos
  {
    var bs := data[pos..end];
    if |bs| > 1 {
      assert bs[0] >= 128;
      assert data[pos + 1..end] == bs[1..];
      StopUnique(data, pos + 1, end);
    } else {
      assert bs[0] == data[pos];
    }
  }

  /** With no clear high bit up to the end of the data there is no number. */
  lemma {:induction false} StopNone(data: seq<byte>, pos: nat)
    requires forall i :: pos <= i < |data| ==> data[i] >= 128
    ensures Stop(data, pos) == None
    decreases |data| - pos
  {
    if pos < |data| { StopNone(data, pos + 1); }
  }

  lemma {:induction false} UnsignedSnoc(bs: seq<byte>, b: byte)
    ensures Unsigned(bs + [b]) == Unsigned(bs) + b % 128 * Pow2(7 * |bs|)
  {
    if bs != [] {
      assert (bs + [b])[1..] == bs[1..] + [b];
      UnsignedSnoc(bs[1..], b);
      var k := 7 * |bs[1..]|;
      SevenBits(|bs| - 1);
      MulAssoc(b % 128, 128, Pow2(k));
      MulAssoc(128, b % 128, Pow2(k));
    } else {
      assert (bs + [b])[1..] == [];
    }
  }

  lemma SevenBits(k: nat)
    ensures Pow2(7 * (k + 1)) == 128 * Pow2(7 * k)
  {
    hide Pow2;
    Pow2Is8();
    Pow2Add(7, 7 * k);
    assert 7 * (k + 1) == 7 + 7 * k;
  }

  lemma {:induction false} UnsignedBound(bs: seq<byte>)
    ensures Unsigned(bs) < Pow2(7 * |bs|)
  {
    if bs != [] {
      UnsignedBound(bs[1..]);
      SevenBits(|bs| - 1);
    }
  }

  /** Sign extension: the signed reading subtracts 2^(7n) when bit 6 of the last byte is set. */
  lemma {:induction false} SignedIsExtension(bs: seq<byte>)
    requires bs != []
    ensures Signed(bs) == Unsigned(bs) - if bs[|bs| - 1] % 128 >= 64 then Pow2(7 * |bs|) else 0
  {
    SevenBits(|bs| - 1);
    if |bs| == 1 {
      assert bs[1..] == [];
    } else {
      SignedIsExtension(bs[1..]);
    }
  }

  /** A continuation byte in front of an encoding is an encoding of seven more bits. */
  lemma ConsGroup(d: nat, rest: seq<byte>)
    requires d < 128 && Terminated(rest)
    ensures var bs: seq<byte> := [d + 128] + rest;
      Terminated(bs) && Unsigned(bs) == d + 128 * Unsigned(rest) && Signed(bs) == d + 128 * Signed(rest)
  {
    var bs: seq<byte> := [d + 128] + rest;
    assert bs[1..] == rest;
  }

  /** The shortest unsigned encoding. */
  function EncodeUnsigned(n: nat): (bs: seq<byte>)
    ensures Terminated(bs) && Unsigned(bs) == n
  {
    if n < 128 then
      assert Unsigned([]) == 0;
      [n]
    else
      var rest := EncodeUnsigned(n / 128);
      ConsGroup(n % 128, rest);
      [n % 128 + 128] + rest
  }

  /** The shortest signed encoding. */
  function EncodeSigned(z: int): (bs: seq<byte>)
    ensures Terminated(bs) && Signed(bs) == z
    decreases if z < 0 then -z else z
  {
    if -64 <= z < 64 then [z % 128]
    else
      var rest := EncodeSigned(z / 128);
      ConsGroup(z % 128, rest);
      [z % 128 + 128] + rest
  }

  lemma PadStep(n: nat, len: nat)
    requires len > 0 && n < Pow2(7 * len)
    ensures n / 128 < Pow2(7 * (len - 1))
    ensures len == 1 ==> n < 128
  {
    assert Pow2(0) == 1;
    hide Pow2;
    SevenBits(len - 1);
    DivLess(n, 128, Pow2(7 * (len - 1)));
  }

  /** An unsigned encoding padded with zero groups to `len` bytes. */
  function PadUnsigned(n: nat, len: nat): (bs: seq<byte>)
    requires len > 0 && n < Pow2(7 * len)
    ensures |bs| == len && Terminated(bs) && Unsigned(bs) == n
    decreases len
  {
    PadStep(n, len);
    if len == 1 then
      assert Unsigned([]) == 0;
      [n]
    else
      var rest := PadUnsigned(n / 128, len - 1);
      ConsGroup(n % 128, rest);
      [n % 128 + 128] + rest
  }

  /** No 64-bit number needs more than ten bytes. */
  lemma EncodingLength(n: nat, k: nat)
    requires k > 0 && n < Pow2(7 * k)
    ensures |EncodeUnsigned(n)| <= k
  {
    if n >= 128 {
      PadStep(n, k);
      EncodingLength(n / 128, k - 1);
    }
  }
}

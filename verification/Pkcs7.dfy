/** Block padding (section 6.3 of RFC 5652). */
module Pkcs7 {
  import opened Bytes
  import opened Wrappers

  function Repeat(b: byte, n: nat): (r: bytes)
    ensures |r| == n && forall i :: 0 <= i < n ==> r[i] == b
  {
    seq(n, _ => b)
  }

  function PadSize(length: nat, block: nat): (p: nat)
    requires 1 <= block <= 255
    ensures 1 <= p <= block
  {
    block - length % block
  }

  function Pad(b: bytes, block: nat): bytes
    requires 1 <= block <= 255
  {
    b + Repeat(PadSize(|b|, block), PadSize(|b|, block))
  }

  /** The data in front of the padding, if b is padded. */
  function Unpad(b: bytes, block: nat): Option<bytes>
    requires 1 <= block <= 255
  {
    if |b| == 0 || |b| % block != 0 then None
    else
      var p := b[|b| - 1];
      if p == 0 || p > block || p > |b| || b[|b| - p..] != Repeat(p, p) then None
      else Some(b[..|b| - p])
  }

  lemma PadFills(length: nat, block: nat)
    requires 1 <= block <= 255
    ensures (length + PadSize(length, block)) % block == 0
  {
    DivModUnique(length + PadSize(length, block), block, length / block + 1, 0);
  }

  /** Padding fills the last block, with 1 to a whole block of bytes that state how many they are. */
  lemma PadMeans(b: bytes, block: nat)
    requires 1 <= block <= 255
    ensures var padded := Pad(b, block);
            var p := |padded| - |b|;
            && 1 <= p <= block && |padded| % block == 0 && padded[..|b|] == b
            && forall i :: |b| <= i < |padded| ==> padded[i] == p
  {
    PadFills(|b|, block);
  }

  /** Unpadding undoes padding. */
  lemma UnpadPad(b: bytes, block: nat)
    requires 1 <= block <= 255
    ensures Unpad(Pad(b, block), block) == Some(b)
  {
    hide PadSize;
    PadFills(|b|, block);
    var p := PadSize(|b|, block);
    var padded := Pad(b, block);
    assert padded[|b|..] == Repeat(p, p) && padded[..|b|] == b;
  }

  lemma PadSizeOf(n: nat, p: nat, block: nat)
    requires 1 <= p <= block <= 255 && (n + p) % block == 0
    ensures PadSize(n, block) == p
  {
    DivModUnique(n, block, (n + p) / block - 1, block - p);
  }

  /** Padding undoes a successful unpadding. */
  lemma PadUnpad(b: bytes, block: nat)
    requires 1 <= block <= 255 && Unpad(b, block).Some?
    ensures Pad(Unpad(b, block).value, block) == b
  {
    hide PadSize;
    var p := b[|b| - 1];
    PadSizeOf(|b| - p, p, block);
    assert b == b[..|b| - p] + b[|b| - p..];
  }

  /** Unpadding accepts exactly what padding produces. */
  lemma UnpadAcceptsIff(b: bytes, block: nat)
    requires 1 <= block <= 255
    ensures Unpad(b, block).Some? <==> exists x :: Pad(x, block) == b
  {
    hide Pad, Unpad;
    if Unpad(b, block).Some? {
      PadUnpad(b, block);
    }
    forall x | Pad(x, block) == b
      ensures Unpad(b, block).Some?
    {
      UnpadPad(x, block);
    }
  }

  /** `pkcs7Pad`. */
  method PadBlock(b: bytes, block: nat) returns (out: array<byte>)
    requires 1 <= block <= 255
    ensures fresh(out) && out[..] == Pad(b, block)
  {
    var p := block - |b| % block;
    out := new byte[|b| + p](i requires 0 <= i => if i < |b| then b[i] else 0);
    for i := 0 to p
      invariant out[..|b|] == b
      invariant forall j :: |b| <= j < |b| + i ==> out[j] == p
    {
      out[|b| + i] := p;
    }
    assert out[..] == out[..|b|] + out[|b|..];
    assert out[|b|..] == Repeat(p, p);
  }

  /** `pkcs7Unpad`. */
  method UnpadBlock(b: bytes, block: nat) returns (r: Option<bytes>)
    requires 1 <= block <= 255
    ensures r == Unpad(b, block)
  {
    if |b| == 0 || |b| % block != 0 { return None; }
    var p := b[|b| - 1];
    if p == 0 || p > block || p > |b| { return None; }
    for i := 0 to p
      invariant forall j :: |b| - i <= j < |b| ==> b[j] == p
    {
      if b[|b| - 1 - i] != p {
        assert b[|b| - p..][p - 1 - i] != Repeat(p, p)[p - 1 - i];
        return None;
      }
    }
    assert b[|b| - p..] == Repeat(p, p);
    return Some(b[..|b| - p]);
  }
}

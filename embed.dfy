/** The write pass of the encoder: the capacity check and the loop that forces
    the parity of each leading pixel byte to one message bit. */
module Steganography {
  import opened Binary

  /** The least significant bit of a byte is set. */
  predicate IsOdd(b: u8)
  {
    b % 2 == 1
  }

  /** The least significant bit of every byte, in order: how a bit is read
      back from the carrier. */
  function Lsbs(data: seq<u8>): (r: seq<bool>)
    ensures |r| == |data|
  {
    seq(|data|, i requires 0 <= i < |data| => IsOdd(data[i]))
  }

  /** One carrier byte after one message bit is written into it: an even
      byte goes up by one for a set bit, an odd byte down by one for a clear
      bit, and a byte whose parity already matches stays as it is. */
  function WithParity(b: u8, bit: bool): (r: u8)
    ensures IsOdd(r) == bit
    ensures r == b <==> IsOdd(b) == bit
    ensures r > b ==> r as int == b as int + 1 && !IsOdd(b)
    ensures r < b ==> r as int == b as int - 1 && IsOdd(b)
  {
    if bit && b % 2 == 0 then b + 1
    else if !bit && b % 2 != 0 then b - 1
    else b
  }

  /** The carrier after the message bits are written into its leading bytes,
      one bit per byte. */
  function Embedded(carrier: seq<u8>, bits: seq<bool>): (r: seq<u8>)
    requires |bits| <= |carrier|
    ensures |r| == |carrier|
    ensures forall i :: 0 <= i < |bits| ==> IsOdd(r[i]) == bits[i]
    ensures forall i :: 0 <= i < |bits| ==> (r[i] == carrier[i] <==> IsOdd(carrier[i]) == bits[i])
    ensures forall i :: |bits| <= i < |r| ==> r[i] == carrier[i]
  {
    seq(|carrier|, i requires 0 <= i < |carrier| =>
      if i < |bits| then WithParity(carrier[i], bits[i]) else carrier[i])
  }

  /** The capacity check and the embedding loop: the bits are written only
      when the buffer holds more bytes than there are bits; otherwise the
      buffer is left exactly as it was. */
  method Embed(data: array<u8>, bits: seq<bool>) returns (embedded: bool)
    modifies data
    ensures embedded <==> data.Length > |bits|
    ensures embedded ==> data[..] == Embedded(old(data[..]), bits)
    ensures !embedded ==> data[..] == old(data[..])
  {
    embedded := data.Length > |bits|;
    if embedded {
      var i := 0;
      while i < |bits|
        invariant 0 <= i <= |bits|
        invariant forall k :: 0 <= k < i ==> data[k] == WithParity(old(data[k]), bits[k])
        invariant forall k :: i <= k < data.Length ==> data[k] == old(data[k])
      {
        var bit := bits[i];
        if bit && data[i] % 2 == 0 {
          data[i] := data[i] + 1;
        } else if !bit && data[i] % 2 != 0 {
          data[i] := data[i] - 1;
        }
        i := i + 1;
      }
    }
  }

  /** The encoder without its file and image I/O: the message is turned into
      bits and, capacity permitting, written into the decoded pixel buffer. */
  method Hide(message: seq<u8>, data: array<u8>) returns (written: bool)
    modifies data
    ensures written <==> data.Length > 8 * |message|
    ensures written ==> data[..] == Embedded(old(data[..]), Flatten(message))
    ensures !written ==> data[..] == old(data[..])
  {
    var messageBin := BinVecU8(message);
    written := Embed(data, messageBin);
  }

  /** Reading the low bits of the leading bytes back gives the bits written. */
  lemma EmbeddedReadBack(carrier: seq<u8>, bits: seq<bool>)
    requires |bits| <= |carrier|
    ensures Lsbs(Embedded(carrier, bits))[..|bits|] == bits
  {
  }

  /** Every byte moves by at most one and only its parity is changed. */
  lemma EmbeddedDistortion(carrier: seq<u8>, bits: seq<bool>, i: nat)
    requires |bits| <= |carrier| && i < |carrier|
    ensures -1 <= Embedded(carrier, bits)[i] as int - carrier[i] as int <= 1
    ensures Embedded(carrier, bits)[i] / 2 == carrier[i] / 2
  {
  }

  /** Writing the same bits a second time changes nothing. */
  lemma EmbeddedIdempotent(carrier: seq<u8>, bits: seq<bool>)
    requires |bits| <= |carrier|
    ensures Embedded(Embedded(carrier, bits), bits) == Embedded(carrier, bits)
  {
  }

  /** A carrier whose leading parities already spell the bits is unchanged. */
  lemma EmbeddedFixedPoint(carrier: seq<u8>, bits: seq<bool>)
    requires |bits| <= |carrier|
    ensures Embedded(carrier, bits) == carrier <==> Lsbs(carrier)[..|bits|] == bits
  {
  }

  /** The message can be recovered from the written carrier: two messages of
      the same length written into the same carrier give different buffers
      unless they are equal. */
  lemma HideInjective(carrier: seq<u8>, m1: seq<u8>, m2: seq<u8>)
    requires |m1| == |m2| && 8 * |m1| < |carrier|
    requires Embedded(carrier, Flatten(m1)) == Embedded(carrier, Flatten(m2))
    ensures m1 == m2
  {
    var e1, e2 := Flatten(m1), Flatten(m2);
    assert e1 == Lsbs(Embedded(carrier, e1))[..|e1|];
    assert e2 == Lsbs(Embedded(carrier, e2))[..|e2|];
    FlattenInjective(m1, m2);
  }

  /** A worked example: [5, 9] written into 32 bytes that all hold 4 sets
      the bytes that carry a 1 bit to 5. */
  lemma EmbeddedFiveNine()
    ensures Embedded(seq(32, _ => 4), Flatten([5, 9])) ==
      [4, 4, 4, 4, 4, 5, 4, 5, 4, 4, 4, 4, 5, 4, 4, 5,
       4, 4, 4, 4, 4, 4, 4, 4, 4, 4, 4, 4, 4, 4, 4, 4]
  {
    FlattenFiveNine();
  }
}

/** Bytes as bit vectors and as numbers, connected one hexadecimal digit at a
    time. */
module Bytes {

  type Byte = bv8

  function Nibble(m: int): bv4
    requires 0 <= m < 16
  {
    m as bv4
  }

  function NibbleValue(b: bv4): (n: int)
    ensures 0 <= n < 16
  {
    b as int
  }

  lemma NibbleRoundTrip(m: int)
    requires 0 <= m < 16
    ensures NibbleValue(Nibble(m)) == m
  {
  }

  lemma NibbleValueRoundTrip(b: bv4)
    ensures Nibble(NibbleValue(b)) == b
  {
  }

  function Join(hi: bv4, lo: bv4): Byte {
    ((hi as bv8) << 4) | (lo as bv8)
  }

  function High(b: Byte): bv4 {
    (b >> 4) as bv4
  }

  function Low(b: Byte): bv4 {
    (b & 0x0F) as bv4
  }

  lemma SplitJoin(hi: bv4, lo: bv4)
    ensures High(Join(hi, lo)) == hi && Low(Join(hi, lo)) == lo
  {
  }

  lemma JoinSplit(b: Byte)
    ensures Join(High(b), Low(b)) == b
  {
  }

  /** The number a byte stands for. */
  function FromByte(b: Byte): (n: int)
    ensures 0 <= n < 256
  {
    16 * NibbleValue(High(b)) + NibbleValue(Low(b))
  }

  function Pack(m: int): Byte
    requires 0 <= m < 256
  {
    Join(Nibble(m / 16), Nibble(m % 16))
  }

  lemma PackValue(m: int)
    requires 0 <= m < 256
    ensures FromByte(Pack(m)) == m
  {
    hide Nibble, NibbleValue, Join, High, Low;
    SplitJoin(Nibble(m / 16), Nibble(m % 16));
    NibbleRoundTrip(m / 16);
    NibbleRoundTrip(m % 16);
  }

  lemma ValuePack(b: Byte)
    ensures Pack(FromByte(b)) == b
  {
    hide Nibble, NibbleValue, Join, High, Low;
    JoinSplit(b);
    NibbleValueRoundTrip(High(b));
    NibbleValueRoundTrip(Low(b));
  }
}

/**
  Fixed-width integers, the byte swap HTONS and the field loads the relay
  performs on captured wire bytes.

  The C code reads multi-byte header fields by casting the capture buffer to
  packed structs, so on the little-endian hosts it runs on an `unsigned short`
  field holds the little-endian reading of the two network-order wire bytes,
  and it compares that against `HTONS(constant)`. The model instead reads every
  field big-endian (the value the protocol means) and compares against the plain
  constant; `LoadLE16IsHtonsOfBE16` and `LE16MatchesHtonsIff` show the two
  comparisons agree.
*/
module Wire {

  type uint8 = x: int | 0 <= x < 0x100
  type uint16 = x: int | 0 <= x < 0x1_0000
  type uint32 = x: int | 0 <= x < 0x1_0000_0000

  datatype Option<+T> = None | Some(value: T)

  /** The HTONS macro. Shifting an unsigned short left by 8 and truncating
      to 16 bits moves its low byte up; shifting it right by 8 moves its high
      byte down; the two bit ranges are disjoint, so OR-ing them is adding them. */
  function Htons(x: uint16): (r: uint16)
    ensures r / 0x100 == x % 0x100 && r % 0x100 == x / 0x100
  {
    var hi, lo := x / 0x100, x % 0x100;
    assert x * 0x100 == hi * 0x1_0000 + lo * 0x100;
    assert (x * 0x100) % 0x1_0000 == lo * 0x100;
    (x * 0x100) % 0x1_0000 + x / 0x100
  }

  /** Swapping twice gives the value back. */
  lemma HtonsInvolution(x: uint16)
    ensures Htons(Htons(x)) == x
  {
  }

  lemma HtonsInjective(x: uint16, y: uint16)
    ensures Htons(x) == Htons(y) <==> x == y
  {
    HtonsInvolution(x);
    HtonsInvolution(y);
  }

  /** Field value as the protocol defines it: two bytes in network order. */
  function LoadBE16(b: seq<uint8>, off: nat): (r: uint16)
    requires off + 2 <= |b|
    ensures r / 0x100 == b[off] && r % 0x100 == b[off + 1]
  {
    (b[off] as int) * 0x100 + b[off + 1]
  }

  /** Value a little-endian host reads from an `unsigned short` field. */
  function LoadLE16(b: seq<uint8>, off: nat): (r: uint16)
    requires off + 2 <= |b|
    ensures r % 0x100 == b[off] && r / 0x100 == b[off + 1]
  {
    b[off] + (b[off + 1] as int) * 0x100
  }

  /** An IPv4 address field as its network-order numeric value (so that
      224.0.0.251 is 0xE00000FB). */
  function LoadBE32(b: seq<uint8>, off: nat): (r: uint32)
    requires off + 4 <= |b|
    ensures r / 0x100_0000 == b[off] && r % 0x100 == b[off + 3]
  {
    (((b[off] as int) * 0x100 + b[off + 1]) * 0x100 + b[off + 2]) * 0x100 + b[off + 3]
  }

  /** The host-order load of a port field is the byte swap of its network value. */
  lemma LoadLE16IsHtonsOfBE16(b: seq<uint8>, off: nat)
    requires off + 2 <= |b|
    ensures LoadLE16(b, off) == Htons(LoadBE16(b, off))
  {
  }

  /** Comparing the host-order load with HTONS(c), as the C code does, decides
      exactly the same thing as comparing the network value with c. */
  lemma LE16MatchesHtonsIff(b: seq<uint8>, off: nat, c: uint16)
    requires off + 2 <= |b|
    ensures LoadLE16(b, off) == Htons(c) <==> LoadBE16(b, off) == c
  {
    LoadLE16IsHtonsOfBE16(b, off);
    HtonsInjective(LoadBE16(b, off), c);
  }

  /** Big-endian 32-bit loads of different byte quads differ, so comparing
      addresses by value compares the four wire bytes. */
  lemma LoadBE32Injective(a: seq<uint8>, i: nat, b: seq<uint8>, j: nat)
    requires i + 4 <= |a| && j + 4 <= |b|
    ensures LoadBE32(a, i) == LoadBE32(b, j) <==> a[i..i + 4] == b[j..j + 4]
  {
    if LoadBE32(a, i) == LoadBE32(b, j) {
      assert a[i..i + 4] == [a[i], a[i + 1], a[i + 2], a[i + 3]];
      assert b[j..j + 4] == [b[j], b[j + 1], b[j + 2], b[j + 3]];
    }
  }
}

/**
 * Byte and word helpers of the high-score tool: 16-bit reads and writes at
 * an address inside a byte buffer.
 *
 * The source reads and writes a word by casting the address to a pointer to
 * a 16-bit integer, so the byte order is the host's. The model fixes a
 * little-endian host (x86), where the low byte lives at the lower address.
 */
module Words {

  newtype byte = x: int | 0 <= x < 0x100
  newtype uint16 = x: int | 0 <= x < 0x1_0000

  /** The word whose little-endian encoding is `lo`, `hi`. */
  function Word(lo: byte, hi: byte): (w: uint16)
    ensures w as int == lo as int + 0x100 * hi as int
  {
    (lo as int + 0x100 * hi as int) as uint16
  }

  /** Low and high byte of a word. */
  function LowByte(w: uint16): (b: byte)
    ensures b as int == w as int % 0x100
  {
    (w as int % 0x100) as byte
  }

  function HighByte(w: uint16): (b: byte)
    ensures b as int == w as int / 0x100
  {
    (w as int / 0x100) as byte
  }

  /** readWord: the 16-bit value stored at `at` on a little-endian host. */
  function ReadWord(buf: seq<byte>, at: nat): (w: uint16)
    requires at + 2 <= |buf|
    ensures w as int == buf[at] as int + 0x100 * buf[at + 1] as int
  {
    Word(buf[at], buf[at + 1])
  }

  /** readLEWord: the same pointer cast as readWord; on a little-endian host it reads the little-endian word. */
  function ReadLEWord(buf: seq<byte>, at: nat): (w: uint16)
    requires at + 2 <= |buf|
    ensures w as int == buf[at] as int + 0x100 * buf[at + 1] as int
  {
    ReadWord(buf, at)
  }

  /** writeLEWord: stores `value` at `at`, low byte first, and touches no other byte. */
  method WriteLEWord(buf: array<byte>, at: nat, value: uint16)
    requires at + 2 <= buf.Length
    modifies buf
    ensures buf[..] == old(buf[..])[at := LowByte(value)][at + 1 := HighByte(value)]
    ensures ReadLEWord(buf[..], at) == value
  {
    buf[at] := LowByte(value);
    buf[at + 1] := HighByte(value);
  }

  /** Splitting a word into its bytes and joining them back gives the word. */
  lemma WordOfBytes(w: uint16)
    ensures Word(LowByte(w), HighByte(w)) == w
  {
  }

  /** Joining two bytes and splitting the word gives the bytes back. */
  lemma BytesOfWord(lo: byte, hi: byte)
    ensures LowByte(Word(lo, hi)) == lo && HighByte(Word(lo, hi)) == hi
  {
  }

  /** Writing a word and reading it back at the same address yields the word. */
  lemma WriteThenRead(buf: seq<byte>, at: nat, value: uint16)
    requires at + 2 <= |buf|
    ensures ReadLEWord(buf[at := LowByte(value)][at + 1 := HighByte(value)], at) == value
  {
  }

  /** Storing the word already held at an address leaves the buffer as it was. */
  lemma WriteBackWhatWasRead(buf: seq<byte>, at: nat)
    requires at + 2 <= |buf|
    ensures buf[at := LowByte(ReadLEWord(buf, at))][at + 1 := HighByte(ReadLEWord(buf, at))] == buf
  {
  }

  /** Reading is independent of every byte other than the two at the address. */
  lemma ReadIsLocal(buf: seq<byte>, other: seq<byte>, at: nat)
    requires at + 2 <= |buf| && at + 2 <= |other|
    requires buf[at] == other[at] && buf[at + 1] == other[at + 1]
    ensures ReadLEWord(buf, at) == ReadLEWord(other, at)
  {
  }
}

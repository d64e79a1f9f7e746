/** A disk as a byte sequence: reading, writing and damaging ranges of it, and the
    commands and addresses that name them. */
module FlatDisk {
  import opened Words
  import opened CardRegisters

  const SECTOR: nat := 512

  // SD and MMC command numbers.
  const READ_BLOCK_SINGLE: nat := 17
  const READ_BLOCK_MULTIPLE: nat := 18
  const WRITE_BLOCK_SINGLE: nat := 24
  const WRITE_BLOCK_MULTIPLE: nat := 25

  /** s with the bytes from off on replaced by x. */
  function Spliced(s: seq<byte>, off: nat, x: seq<byte>): (r: seq<byte>)
    requires off + |x| <= |s|
    ensures |r| == |s|
  {
    s[..off] + x + s[off + |x|..]
  }

  /** a and b differ at most in [off, off + len). */
  ghost predicate SameOutside(a: seq<byte>, b: seq<byte>, off: nat, len: nat)
  {
    && |a| == |b| && off + len <= |a|
    && a[..off] == b[..off] && a[off + len..] == b[off + len..]
  }

  lemma SplicedIsLocal(s: seq<byte>, off: nat, x: seq<byte>)
    requires off + |x| <= |s|
    ensures SameOutside(Spliced(s, off, x), s, off, |x|)
    ensures Spliced(s, off, x)[off..off + |x|] == x
  {
  }

  /** Writing over a damaged range gives what writing at once gives. */
  lemma SpliceRepairs(a: seq<byte>, b: seq<byte>, off: nat, x: seq<byte>)
    requires SameOutside(a, b, off, |x|)
    ensures Spliced(a, off, x) == Spliced(b, off, x)
  {
  }

  /** Two adjacent writes are one. */
  lemma SpliceAppend(s: seq<byte>, off: nat, x: seq<byte>, y: seq<byte>)
    requires off + |x| + |y| <= |s|
    ensures Spliced(Spliced(s, off, x), off + |x|, y) == Spliced(s, off, x + y)
  {
    var a := Spliced(s, off, x);
    assert a[..off + |x|] == s[..off] + x;
    assert a[off + |x| + |y|..] == s[off + |x| + |y|..];
  }

  lemma SpliceNothing(s: seq<byte>, off: nat)
    requires off <= |s|
    ensures Spliced(s, off, []) == s && SameOutside(s, s, off, 0)
  {
  }

  lemma SameOutsideGrows(a: seq<byte>, b: seq<byte>, off: nat, len: nat, off': nat, len': nat)
    requires SameOutside(a, b, off, len) && off' <= off && off + len <= off' + len' <= |a|
    ensures SameOutside(a, b, off', len')
  {
    assert a[..off'] == a[..off][..off'] && b[..off'] == b[..off][..off'];
    var k := off' + len' - (off + len);
    assert a[off' + len'..] == a[off + len..][k..] && b[off' + len'..] == b[off + len..][k..];
  }

  lemma SameOutsideTrans(a: seq<byte>, b: seq<byte>, c: seq<byte>, off: nat, len: nat)
    requires SameOutside(a, b, off, len) && SameOutside(b, c, off, len)
    ensures SameOutside(a, c, off, len)
  {
  }

  /** Bytes arrive in host memory. */
  method Deliver(data: array<byte>, off: nat, d: seq<byte>)
    requires off + |d| <= data.Length
    modifies data
    ensures data[..] == Spliced(old(data[..]), off, d)
  {
    forall i | 0 <= i < |d| {
      data[off + i] := d[i];
    }
  }

  // ------------------------------------------------------------------------
  // Commands and addresses

  /** A command that goes on until it is stopped. */
  predicate Multiple(opcode: nat) { opcode == READ_BLOCK_MULTIPLE || opcode == WRITE_BLOCK_MULTIPLE }

  /** The opcode moves len bytes in this direction: a single-block command moves
      one block whatever the host expects. */
  predicate Fits(read: bool, opcode: nat, len: nat)
  {
    && (if read then opcode == READ_BLOCK_SINGLE || opcode == READ_BLOCK_MULTIPLE
        else opcode == WRITE_BLOCK_SINGLE || opcode == WRITE_BLOCK_MULTIPLE)
    && (Multiple(opcode) || len == SECTOR)
  }

  /** The byte address a card takes from a command argument. */
  function Address(sdhc: bool, arg: nat): nat { if sdhc then arg * SECTOR else arg }

  /** The argument the driver computes, in 32-bit arithmetic. */
  function Argument(sdhc: bool, blkno: int): word
  {
    (if sdhc then blkno else blkno * SECTOR) % WORD
  }

  /** Block and byte addressing reach the same place exactly when the number
      sent fits 32 bits. */
  lemma AddressingIsExact(sdhc: bool, blkno: nat)
    ensures Address(sdhc, Argument(sdhc, blkno)) == blkno * SECTOR
       <==> (if sdhc then blkno else blkno * SECTOR) < WORD
  {
  }
}

/**
 Capabilities: their packing into a 64-bit word, and the salted word that clients hold.
 */
module Capabilities {
  import opened Words

  type capref = u64

  const SALT: u64 := 0xAAAA_AAAA_AAAA_AAAA

  // The permission flags are 1 << 1, 1 << 2 and, for EXEC, which no operation asks for, 1 << 3.
  const PERM_READ: nat := 1
  const PERM_WRITE: nat := 2

  datatype Capability = Capability(base: u64, size: u64, sizeBits: byte, perms: byte) {
    predicate Readable() { Bit(perms, PERM_READ) }
    predicate Writable() { Bit(perms, PERM_WRITE) }

    /** The address just past the last byte. */
    function End(): nat { base + size }

    predicate Contains(addr: nat) { base <= addr < End() }
  }

  /** `1UL << bits`. A count of 64 or more is undefined in C; as on x86-64, it is taken modulo 64. */
  function SizeOf(bits: byte): (size: u64)
    ensures size > 0
  {
    PowersOfTwo();
    Pow2Grows(bits % 64 + 1, 64);
    Pow2(bits % 64)
  }

  function Decompress(comp: u64): Capability {
    var sizeBits := (comp / TWO_TO_THE_48) % 256;
    Capability(comp % TWO_TO_THE_48, SizeOf(sizeBits), sizeBits, comp / TWO_TO_THE_56)
  }

  lemma {:induction false} OrCommutes(a: nat, b: nat)
    ensures Or(a, b) == Or(b, a)
  {
    if a == 0 && b == 0 {
    } else {
      OrCommutes(a / 2, b / 2);
    }
  }

  lemma CompressIsSum(c: Capability)
    ensures Or(Or(c.sizeBits * TWO_TO_THE_48, c.base % TWO_TO_THE_48), c.perms * TWO_TO_THE_56)
            == c.perms * TWO_TO_THE_56 + c.sizeBits * TWO_TO_THE_48 + c.base % TWO_TO_THE_48
            < TWO_TO_THE_64
  {
    PowersOfTwo();
    OrOfDisjointFields(c.sizeBits, c.base % TWO_TO_THE_48, 48);
    var low := c.sizeBits * TWO_TO_THE_48 + c.base % TWO_TO_THE_48;
    OrCommutes(low, c.perms * TWO_TO_THE_56);
    OrOfDisjointFields(c.perms, low, 56);
  }

  function Compress(c: Capability): u64 {
    CompressIsSum(c);
    Or(Or(c.sizeBits * TWO_TO_THE_48, c.base % TWO_TO_THE_48), c.perms * TWO_TO_THE_56)
  }

  /** The three fields of a packed word do not disturb one another. */
  lemma FieldsOfSum(perms: byte, sizeBits: byte, base: nat, w: nat)
    requires base < TWO_TO_THE_48
    requires w == perms * TWO_TO_THE_56 + sizeBits * TWO_TO_THE_48 + base
    ensures w % TWO_TO_THE_48 == base
    ensures w / TWO_TO_THE_48 == 256 * perms + sizeBits
    ensures (w / TWO_TO_THE_48) % 256 == sizeBits
    ensures w / TWO_TO_THE_56 == perms
  {
    assert w == (256 * perms + sizeBits) * TWO_TO_THE_48 + base;
    assert w / TWO_TO_THE_56 == perms;
  }

  /** Every 64-bit word is the packing of exactly what it unpacks to. */
  lemma CompressDecompress(w: u64)
    ensures Compress(Decompress(w)) == w
  {
    CompressIsSum(Decompress(w));
    var hi := w / TWO_TO_THE_48;
    assert w == hi * TWO_TO_THE_48 + w % TWO_TO_THE_48;
    assert hi == hi / 256 * 256 + hi % 256;
    assert hi / 256 == w / TWO_TO_THE_56;
  }

  /** Which capabilities survive packing: those with a 48-bit base whose size is the one their size field names. */
  lemma DecompressCompress(c: Capability)
    ensures Decompress(Compress(c)) == c <==> c.base < TWO_TO_THE_48 && c.size == SizeOf(c.sizeBits)
  {
    CompressIsSum(c);
    FieldsOfSum(c.perms, c.sizeBits, c.base % TWO_TO_THE_48, Compress(c));
  }

  lemma Salted(w: u64)
    ensures Xor(w, SALT) < TWO_TO_THE_64
  {
    PowersOfTwo();
    XorFits(w, SALT, 64);
  }

  function FromCapref(r: capref): Capability {
    Salted(r);
    Decompress(Xor(r, SALT))
  }

  function ToCapref(c: Capability): capref {
    Salted(Compress(c));
    Xor(Compress(c), SALT)
  }

  /** A capref comes back bit for bit from the capability it names. */
  lemma CaprefRoundTrip(r: capref)
    ensures ToCapref(FromCapref(r)) == r
  {
    Salted(r);
    CompressDecompress(Xor(r, SALT));
    XorTwice(r, SALT);
  }

  /** Which capabilities a capref can name: the ones that survive packing. */
  lemma CapabilityRoundTrip(c: Capability)
    ensures FromCapref(ToCapref(c)) == c <==> c.base < TWO_TO_THE_48 && c.size == SizeOf(c.sizeBits)
  {
    var w := Compress(c);
    Salted(w);
    XorTwice(w, SALT);
    DecompressCompress(c);
  }

  /** The eight bytes stored for a capref, and the capref loaded from eight bytes. */
  function StoredBytes(r: capref): (b: seq<byte>)
    ensures |b| == 8
  {
    Bytes(Compress(FromCapref(r)), 8)
  }

  function LoadedCapref(b: seq<byte>): capref
    requires |b| == 8
  {
    ToCapref(Decompress(Word64(b)))
  }

  /** Storing and loading compose to the identity on caprefs. */
  lemma StoreLoadRoundTrip(r: capref)
    ensures LoadedCapref(StoredBytes(r)) == r
  {
    var c := FromCapref(r);
    Salted(r);
    CompressDecompress(Xor(r, SALT));
    Word64RoundTrip(Compress(c));
    CaprefRoundTrip(r);
  }

  /** Loading loses nothing: the bytes are the ones stored for the capref they load as. */
  lemma LoadStoreRoundTrip(b: seq<byte>)
    requires |b| == 8
    ensures StoredBytes(LoadedCapref(b)) == b
  {
    var w := Word64(b);
    CompressDecompress(w);
    Salted(w);
    XorTwice(w, SALT);
    BytesOfWord(b);
  }
}

/** Guest memory as a reader sees it: the partial map from the readable addresses
    to their bytes.  Every read-only stage of the linker takes such a view, so its
    theorems hold for any backing memory (src/memory/guest_memory.h:32-48). */
module Views {
  import opened Words

  type View = m: map<int, u8> | forall k :: k in m ==> 0 <= k < ADDRESS_SPACE witness map[]

  predicate Readable(v: View, address: int, n: nat) {
    forall k :: address <= k < address + n ==> k in v
  }

  function Bytes(v: View, address: int, n: nat): (b: seq<u8>)
    requires Readable(v, address, n)
    ensures |b| == n && forall i :: 0 <= i < n ==> b[i] == v[address + i]
  {
    seq(n, i requires 0 <= i < n => v[address + i])
  }

  function Read(v: View, address: u32, n: nat): (r: Option<seq<u8>>)
    ensures r.Some? ==> |r.value| == n
  {
    if Readable(v, address, n) then Some(Bytes(v, address, n)) else None
  }

  /** The little-endian word and half-word at an address. */
  function WordIn(v: View, a: int): int
    requires Readable(v, a, 4)
  {
    v[a] as int + 0x100 * v[a + 1] as int + 0x1_0000 * v[a + 2] as int + 0x100_0000 * v[a + 3] as int
  }

  function HalfIn(v: View, a: int): int
    requires Readable(v, a, 2)
  {
    v[a] as int + 0x100 * v[a + 1] as int
  }

  function ReadWord(v: View, address: u32): Option<u32> {
    match Read(v, address, 4)
    case None => None
    case Some(b) => Some(DecodeU32(b, 0))
  }

  /** Reading a word reads its four bytes. */
  lemma {:induction false} WordExact(v: View, a: u32, w: u32)
    ensures ReadWord(v, a) == Some(w) <==> Readable(v, a, 4) && w == WordIn(v, a)
  {
    if Readable(v, a, 4) {
      var b := Bytes(v, a, 4);
      assert b[0] == v[a] && b[1] == v[a + 1] && b[2] == v[a + 2] && b[3] == v[a + 3];
    }
  }

  /** read_indexed_word: word `index` of a table of words. */
  function ReadIndexedWord(v: View, base: u32, index: u32): Option<u32> {
    match CheckedAdd(base, 4 * index)
    case None => None
    case Some(address) => ReadWord(v, address)
  }

  /** Reading a range in 256-byte chunks accepts exactly the readable ranges
      (readable_range in the metadata and symbol layers). */
  method ReadableRange(v: View, address: u32, size: nat) returns (ok: bool)
    ensures ok == Readable(v, address, size)
  {
    var offset := 0;
    while offset < size
      invariant 0 <= offset <= size
      invariant Readable(v, address, offset)
    {
      var chunk := Min(256, size - offset);
      var current := address + offset;
      if current >= ADDRESS_SPACE || Read(v, current, chunk).None? {
        assert current >= ADDRESS_SPACE ==> current !in v;
        return false;
      }
      offset := offset + chunk;
    }
    return true;
  }
}

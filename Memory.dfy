/**
 * Guest physical memory as the decoder and the debugger see it: byte addressed,
 * read and written 1, 2 or 4 bytes at a time, little-endian (vaddr_read,
 * vaddr_write, paddr_read). The bounds checks and device regions of the real
 * accessor are not part of this model: every address holds a byte.
 *
 * A memory is the image it started from with the bytes stored since layered on
 * top; the byte at an address is the most recent one stored there, or the
 * image's byte when nothing was stored there.
 */
module Memory {
  import opened Bits

  type Byte = bv8

  predicate ValidLen(len: Word)
  {
    len == 1 || len == 2 || len == 4
  }

  /** A store performed by an instruction: Mw(addr, len, data). */
  datatype MemWrite = MemWrite(addr: Word, len: Word, data: Word)

  /** The whole guest address space. */
  datatype Mem = Image(bytes: Word -> Byte) | Poke(below: Mem, addr: Word, b: Byte)

  /** The byte at address `a`. */
  function At(m: Mem, a: Word): Byte
  {
    match m
    case Image(bytes) => bytes(a)
    case Poke(below, addr, b) => if a == addr then b else At(below, a)
  }

  /** The low `len` bytes of a word: what a store of that width keeps. */
  function Truncate(data: Word, len: Word): Word
  {
    if len == 1 then data & 0xFF else if len == 2 then data & 0xFFFF else data
  }

  function Byte0(d: Word): Byte { (d & 0xFF) as Byte }
  function Byte1(d: Word): Byte { ((d >> 8) & 0xFF) as Byte }
  function Byte2(d: Word): Byte { ((d >> 16) & 0xFF) as Byte }
  function Byte3(d: Word): Byte { (d >> 24) as Byte }

  /**
   * The value of `len` bytes laid out least significant first, zero-extended;
   * bytes past `len` are ignored.
   */
  function Assemble(b0: Byte, b1: Byte, b2: Byte, b3: Byte, len: Word): (r: Word)
    requires ValidLen(len)
    ensures len == 1 ==> r >> 8 == 0
    ensures len == 2 ==> r >> 16 == 0
    ensures r & 0xFF == b0 as Word
    ensures len >= 2 ==> (r >> 8) & 0xFF == b1 as Word
    ensures len == 4 ==> (r >> 16) & 0xFF == b2 as Word && r >> 24 == b3 as Word
  {
    if len == 1 then b0 as Word
    else if len == 2 then (b0 as Word) | ((b1 as Word) << 8)
    else (b0 as Word) | ((b1 as Word) << 8) | ((b2 as Word) << 16) | ((b3 as Word) << 24)
  }

  /** Mr(addr, len): `len` bytes from `addr` upward, least significant first, zero-extended. */
  function Read(m: Mem, addr: Word, len: Word): Word
    requires ValidLen(len)
  {
    Assemble(At(m, addr), At(m, addr + 1), At(m, addr + 2), At(m, addr + 3), len)
  }

  /** A one-byte read is the byte at the address, zero-extended. */
  lemma ReadByte(m: Mem, addr: Word)
    ensures Read(m, addr, 1) == At(m, addr) as Word
  {
  }

  /** Mw(addr, len, data): the low `len` bytes of data stored from `addr` upward. */
  function Store(m: Mem, addr: Word, len: Word, data: Word): Mem
    requires ValidLen(len)
  {
    var m1 := Poke(m, addr, Byte0(data));
    if len == 1 then m1
    else
      var m2 := Poke(m1, addr + 1, Byte1(data));
      if len == 2 then m2
      else Poke(Poke(m2, addr + 2, Byte2(data)), addr + 3, Byte3(data))
  }

  function Write(m: Mem, w: MemWrite): Mem
    requires ValidLen(w.len)
  {
    Store(m, w.addr, w.len, w.data)
  }

  /** Does a store of `len` bytes at `addr` cover address `a`? Addresses wrap at 2^32. */
  predicate Covers(addr: Word, len: Word, a: Word)
  {
    a - addr < len
  }

  lemma Reassemble1(d: Word)
    ensures Byte0(d) as Word == d & 0xFF
  {
  }

  lemma Reassemble2(d: Word)
    ensures (Byte0(d) as Word) | ((Byte1(d) as Word) << 8) == d & 0xFFFF
  {
  }

  lemma Reassemble4(d: Word)
    ensures (Byte0(d) as Word) | ((Byte1(d) as Word) << 8)
            | ((Byte2(d) as Word) << 16) | ((Byte3(d) as Word) << 24) == d
  {
  }

  /** Reassembling the low `len` bytes of a word gives back its low `len` bytes. */
  lemma Reassemble(d: Word, len: Word)
    requires ValidLen(len)
    ensures Assemble(Byte0(d), Byte1(d), Byte2(d), Byte3(d), len) == Truncate(d, len)
  {
    if len == 1 {
      Reassemble1(d);
    } else if len == 2 {
      Reassemble2(d);
    } else {
      Reassemble4(d);
    }
  }

  /** Assemble looks only at the first `len` bytes. */
  lemma AssembleCongruent(b0: Byte, b1: Byte, b2: Byte, b3: Byte,
                          c0: Byte, c1: Byte, c2: Byte, c3: Byte, len: Word)
    requires ValidLen(len)
    requires b0 == c0 && (len >= 2 ==> b1 == c1) && (len == 4 ==> b2 == c2 && b3 == c3)
    ensures Assemble(b0, b1, b2, b3, len) == Assemble(c0, c1, c2, c3, len)
  {
  }

  /** The four addresses a word access touches are distinct. */
  lemma DistinctOffsets(a: Word)
    ensures a != a + 1 && a != a + 2 && a != a + 3
    ensures a + 1 != a + 2 && a + 1 != a + 3 && a + 2 != a + 3
  {
  }

  /** A byte just stored is read back. */
  lemma PokeHit(m: Mem, p: Word, b: Byte)
    ensures At(Poke(m, p, b), p) == b
  {
  }

  /** A byte stored elsewhere does not change what is read. */
  lemma PokeMiss(m: Mem, p: Word, b: Byte, a: Word)
    requires a != p
    ensures At(Poke(m, p, b), a) == At(m, a)
  {
  }

  lemma StoredWord(m: Mem, addr: Word, data: Word)
    ensures At(Store(m, addr, 4, data), addr) == Byte0(data)
    ensures At(Store(m, addr, 4, data), addr + 1) == Byte1(data)
    ensures At(Store(m, addr, 4, data), addr + 2) == Byte2(data)
    ensures At(Store(m, addr, 4, data), addr + 3) == Byte3(data)
  {
    DistinctOffsets(addr);
    var m1 := Poke(m, addr, Byte0(data));
    var m2 := Poke(m1, addr + 1, Byte1(data));
    var m3 := Poke(m2, addr + 2, Byte2(data));
    PokeHit(m, addr, Byte0(data));
    PokeMiss(m1, addr + 1, Byte1(data), addr);
    PokeMiss(m2, addr + 2, Byte2(data), addr);
    PokeMiss(m3, addr + 3, Byte3(data), addr);
    PokeHit(m1, addr + 1, Byte1(data));
    PokeMiss(m2, addr + 2, Byte2(data), addr + 1);
    PokeMiss(m3, addr + 3, Byte3(data), addr + 1);
    PokeHit(m2, addr + 2, Byte2(data));
    PokeMiss(m3, addr + 3, Byte3(data), addr + 2);
    PokeHit(m3, addr + 3, Byte3(data));
  }

  lemma StoredHalf(m: Mem, addr: Word, data: Word)
    ensures At(Store(m, addr, 2, data), addr) == Byte0(data)
    ensures At(Store(m, addr, 2, data), addr + 1) == Byte1(data)
  {
    DistinctOffsets(addr);
    var m1 := Poke(m, addr, Byte0(data));
    PokeHit(m, addr, Byte0(data));
    PokeMiss(m1, addr + 1, Byte1(data), addr);
    PokeHit(m1, addr + 1, Byte1(data));
  }

  /** After a store, its whole window holds the bytes of the data, least significant first. */
  lemma StoredWindow(m: Mem, addr: Word, len: Word, data: Word)
    requires ValidLen(len)
    ensures At(Store(m, addr, len, data), addr) == Byte0(data)
    ensures len >= 2 ==> At(Store(m, addr, len, data), addr + 1) == Byte1(data)
    ensures len == 4 ==> At(Store(m, addr, len, data), addr + 2) == Byte2(data)
    ensures len == 4 ==> At(Store(m, addr, len, data), addr + 3) == Byte3(data)
  {
    if len == 1 {
      PokeHit(m, addr, Byte0(data));
    } else if len == 2 {
      StoredHalf(m, addr, data);
    } else {
      StoredWord(m, addr, data);
    }
  }

  /** Reading back at the address of a store returns the stored low bytes. */
  lemma ReadAfterStore(m: Mem, addr: Word, len: Word, data: Word)
    requires ValidLen(len)
    ensures Read(Store(m, addr, len, data), addr, len) == Truncate(data, len)
  {
    var m' := Store(m, addr, len, data);
    StoredWindow(m, addr, len, data);
    AssembleCongruent(At(m', addr), At(m', addr + 1), At(m', addr + 2), At(m', addr + 3),
                      Byte0(data), Byte1(data), Byte2(data), Byte3(data), len);
    Reassemble(data, len);
  }

  lemma ReadAfterWrite(m: Mem, w: MemWrite)
    requires ValidLen(w.len)
    ensures Read(Write(m, w), w.addr, w.len) == Truncate(w.data, w.len)
  {
    ReadAfterStore(m, w.addr, w.len, w.data);
  }

  /** An address outside the window differs from each address in it. */
  lemma OutsideFirst(addr: Word, len: Word, a: Word)
    requires ValidLen(len) && !Covers(addr, len, a)
    ensures a != addr
  {
  }

  lemma OutsideSecond(addr: Word, len: Word, a: Word)
    requires ValidLen(len) && !Covers(addr, len, a)
    ensures len != 1 ==> a != addr + 1
  {
  }

  lemma OutsideUpper(addr: Word, len: Word, a: Word)
    requires ValidLen(len) && !Covers(addr, len, a)
    ensures len == 4 ==> a != addr + 2 && a != addr + 3
  {
  }

  /** A store changes no byte outside [addr, addr + len), addresses wrapping at 2^32. */
  lemma StoreFrame(m: Mem, addr: Word, len: Word, data: Word, a: Word)
    requires ValidLen(len)
    requires !Covers(addr, len, a)
    ensures At(Store(m, addr, len, data), a) == At(m, a)
  {
    var m1 := Poke(m, addr, Byte0(data));
    var m2 := Poke(m1, addr + 1, Byte1(data));
    var m3 := Poke(m2, addr + 2, Byte2(data));
    OutsideFirst(addr, len, a);
    OutsideSecond(addr, len, a);
    OutsideUpper(addr, len, a);
    PokeMiss(m, addr, Byte0(data), a);
    if len != 1 {
      PokeMiss(m1, addr + 1, Byte1(data), a);
      if len == 4 {
        PokeMiss(m2, addr + 2, Byte2(data), a);
        PokeMiss(m3, addr + 3, Byte3(data), a);
      }
    }
  }

  lemma WriteFrame(m: Mem, w: MemWrite, a: Word)
    requires ValidLen(w.len)
    requires !Covers(w.addr, w.len, a)
    ensures At(Write(m, w), a) == At(m, a)
  {
    StoreFrame(m, w.addr, w.len, w.data, a);
  }
}

/** What the two symbol hashes are: a closed form and published values
    (src/elf/linking/elf32_symbol_lookup.cpp:147-166). */
module HashValues {
  import opened Words
  import opened Objects
  import opened SymbolLookup

  function Power33(n: nat): nat { if n == 0 then 1 else 33 * Power33(n - 1) }

  /** The bytes weighted by their position: the last one counts once, the one before 33 times. */
  function Weight(name: Name): nat {
    if name == [] then 0 else name[0] as nat * Power33(|name| - 1) + Weight(name[1..])
  }

  lemma {:induction false} WeightSnoc(name: Name, c: u8)
    ensures Weight(name + [c]) == 33 * Weight(name) + c as nat
  {
    if name == [] {
      assert name + [c] == [c] && [c][1..] == [];
      assert Power33(0) == 1;
    } else {
      var all := name + [c];
      assert all[1..] == name[1..] + [c] && all[0] == name[0];
      WeightSnoc(name[1..], c);
      Scaled(name[0] as nat, Power33(|name| - 1));
    }
  }

  lemma {:induction false} Scaled(a: nat, b: nat)
    ensures a * (33 * b) == 33 * (a * b)
  {
  }

  lemma {:induction false} ModStep(a: nat, b: nat, c: nat)
    requires b == a % 0x1_0000_0000
    ensures (b * 33 + c) % 0x1_0000_0000 == (a * 33 + c) % 0x1_0000_0000
  {
    var q := a / 0x1_0000_0000;
    var x := b * 33 + c;
    assert a * 33 + c == (x / 0x1_0000_0000 + 33 * q) * 0x1_0000_0000 + x % 0x1_0000_0000;
    QuotientUnique(a * 33 + c, 0x1_0000_0000, x / 0x1_0000_0000 + 33 * q, x % 0x1_0000_0000);
  }

  /** The GNU hash is 5381 times a power of 33 plus the weighted bytes, modulo 2^32. */
  lemma {:induction false} GnuClosedForm(name: Name)
    ensures GnuHash(name) == (5381 * Power33(|name|) + Weight(name)) % 0x1_0000_0000
  {
    if name == [] {
    } else {
      var n := |name| - 1;
      var init, c := name[..n], name[n];
      assert name == init + [c];
      GnuClosedForm(init);
      WeightSnoc(init, c);
      ModStep(5381 * Power33(n) + Weight(init), GnuHash(init), c as nat);
      Scaled(5381, Power33(n));
    }
  }

  lemma {:induction false} GnuSnoc(name: Name, c: u8)
    ensures GnuHash(name + [c]) == (GnuHash(name) * 33 + c as int) % 0x1_0000_0000
  {
    assert (name + [c])[..|name|] == name;
  }

  lemma {:induction false} SysvSnoc(name: Name, c: u8)
    ensures SysvBits(name + [c]) == SysvStep(SysvBits(name), c as bv32)
  {
    assert (name + [c])[..|name|] == name;
  }

  /** The SysV hash has 28 bits. */
  lemma {:induction false} SysvBounded(name: Name)
    ensures SysvBits(name) < 0x1000_0000
  {
    if name != [] {
      StepBounded(SysvBits(name[..|name| - 1]), name[|name| - 1] as bv32);
    }
  }

  lemma {:induction false} StepBounded(hash: bv32, byte: bv32)
    ensures SysvStep(hash, byte) < 0x1000_0000
  {
    var h := (hash << 4) + byte;
    var high := h & 0xf000_0000;
    FoldKeepsTop(h, high);
    TopCleared(h ^ (high >> 24), high);
    NoTop((h ^ (high >> 24)) & !high);
    NoTop(h);
  }

  /** Folding the top nibble into the low byte leaves the top nibble. */
  lemma {:induction false} FoldKeepsTop(h: bv32, high: bv32)
    requires high == h & 0xf000_0000
    ensures (h ^ (high >> 24)) & 0xf000_0000 == high
  {
  }

  lemma {:induction false} TopCleared(x: bv32, high: bv32)
    requires x & 0xf000_0000 == high
    ensures (x & !high) & 0xf000_0000 == 0
  {
  }

  lemma {:induction false} NoTop(x: bv32)
    ensures x & 0xf000_0000 == 0 ==> x < 0x1000_0000
  {
  }

  lemma {:induction false} GnuNext(name: Name, c: u8, hash: u32, next: u32)
    requires GnuHash(name) == hash && next == (hash * 33 + c as int) % 0x1_0000_0000
    ensures GnuHash(name + [c]) == next
  {
    GnuSnoc(name, c);
  }

  lemma {:induction false} SysvNext(name: Name, c: u8, hash: bv32, next: bv32)
    requires SysvBits(name) == hash && next == SysvStep(hash, c as bv32)
    ensures SysvBits(name + [c]) == next
  {
    SysvSnoc(name, c);
  }

  lemma {:induction false} GnuStart()
    ensures GnuHash([]) == 5381
  {
  }

  lemma {:induction false} SysvStart()
    ensures SysvBits([]) == 0
  {
  }

  /** The GNU hash of "exit". */
  lemma {:induction false} GnuExit()
    ensures GnuHash([101, 120, 105, 116]) == 0x7c967e3f
  {
    hide GnuHash;
    GnuStart();
    var n0: Name := [];
    var n1 := n0 + [101];
    GnuNext(n0, 101, 0x1505, 0x2b60a);
    var n2 := n1 + [120];
    GnuNext(n1, 120, 0x2b60a, 0x5977c2);
    var n3 := n2 + [105];
    GnuNext(n2, 105, 0x5977c2, 0xb88706b);
    var n4 := n3 + [116];
    GnuNext(n3, 116, 0xb88706b, 0x7c967e3f);
    assert n4 == [101, 120, 105, 116];
  }

  /** The GNU hash of "syscall". */
  lemma {:induction false} GnuSyscall()
    ensures GnuHash([115, 121, 115, 99, 97, 108, 108]) == 0xbac212a0
  {
    hide GnuHash;
    GnuStart();
    var n0: Name := [];
    var n1 := n0 + [115];
    GnuNext(n0, 115, 0x1505, 0x2b618);
    var n2 := n1 + [121];
    GnuNext(n1, 121, 0x2b618, 0x597991);
    var n3 := n2 + [115];
    GnuNext(n2, 115, 0x597991, 0xb88ac24);
    var n4 := n3 + [99];
    GnuNext(n3, 99, 0xb88ac24, 0x7c9e3107);
    var n5 := n4 + [97];
    GnuNext(n4, 97, 0x7c9e3107, 0x10645248);
    var n6 := n5 + [108];
    GnuNext(n5, 108, 0x10645248, 0x1cee9bb4);
    var n7 := n6 + [108];
    GnuNext(n6, 108, 0x1cee9bb4, 0xbac212a0);
    assert n7 == [115, 121, 115, 99, 97, 108, 108];
  }

  /** The SysV hash of "exit". */
  lemma {:induction false} SysvExit()
    ensures SysvBits([101, 120, 105, 116]) == 0x6cf04
  {
    hide SysvBits;
    SysvStart();
    var n0: Name := [];
    var n1 := n0 + [101];
    SysvNext(n0, 101, 0x0, 0x65);
    var n2 := n1 + [120];
    SysvNext(n1, 120, 0x65, 0x6c8);
    var n3 := n2 + [105];
    SysvNext(n2, 105, 0x6c8, 0x6ce9);
    var n4 := n3 + [116];
    SysvNext(n3, 116, 0x6ce9, 0x6cf04);
    assert n4 == [101, 120, 105, 116];
  }

  /** The SysV hash of "syscall". */
  lemma {:induction false} SysvSyscall()
    ensures SysvBits([115, 121, 115, 99, 97, 108, 108]) == 0xb09985c
  {
    hide SysvBits;
    SysvStart();
    var n0: Name := [];
    var n1 := n0 + [115];
    SysvNext(n0, 115, 0x0, 0x73);
    var n2 := n1 + [121];
    SysvNext(n1, 121, 0x73, 0x7a9);
    var n3 := n2 + [115];
    SysvNext(n2, 115, 0x7a9, 0x7b03);
    var n4 := n3 + [99];
    SysvNext(n3, 99, 0x7b03, 0x7b093);
    var n5 := n4 + [97];
    SysvNext(n4, 97, 0x7b093, 0x7b0991);
    var n6 := n5 + [108];
    SysvNext(n5, 108, 0x7b0991, 0x7b0997c);
    var n7 := n6 + [108];
    SysvNext(n6, 108, 0x7b0997c, 0xb09985c);
    assert n7 == [115, 121, 115, 99, 97, 108, 108];
  }
}

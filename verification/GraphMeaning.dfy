/** A genuine object of a load graph, told by the bytes of its image and of the final memory
    (src/elf/linking/elf32_dependency_loader.cpp:69-162). */
module GraphMeaning {
  import opened Words
  import opened Views
  import opened AddressSpaces
  import opened Layers
  import opened Loader
  import opened LoadImages
  import opened ImageHeaders
  import opened ImageMeaning
  import opened Objects
  import opened LinkerStrings
  import opened MetadataMeaning
  import opened ObjectLoading
  import opened ObjectMeaning
  import opened LoadContexts
  import opened LoadAccounts

  /** On the pages of every PT_LOAD header, the memory has the permission of the flag bits and the
      file bytes, then zeros. */
  ghost predicate HoldsImage(t: Space, image: seq<u8>, bias: u32)
    requires WellFormed(t) && ElfHeader(image)
  {
    var at := Headers(image, 1, Count(image));
    forall k, a: nat :: 0 <= k < |at| && a < ADDRESS_SPACE && OnPages(t.pageSize, image, at[k], bias, a) ==>
      t.status[a] == Mapped(Flags(image, at[k])) && t.bytes[a] == ByteFor(image, at[k], bias, a)
  }

  /** Load record, memory, entries, metadata and names of the object are those its image says. */
  ghost predicate FromImage(o: Object, max: u32, t: Space)
    requires WellFormed(t)
  {
    && o.load.Some? && ElfHeader(o.image) && HoldsImage(t, o.image, o.load.value.bias)
    && (exists base :: LoadFrom(t.pageSize, o.image, base, o.load.value))
    && ObjectFrom(ViewOf(t), o, max)
  }

  /** A view that shows more. */
  ghost predicate Extends(v: View, w: View) { forall a :: a in v ==> a in w && w[a] == v[a] }

  lemma {:induction false} KeptView(s: Space, t: Space)
    requires WellFormed(s) && WellFormed(t) && KeepsMapped(s, t)
    ensures Extends(ViewOf(s), ViewOf(t))
  {
  }

  lemma {:induction false} ReachesMore(v: View, w: View, m: Metadata)
    requires Extends(v, w) && InRange(v, m)
    ensures InRange(w, m)
  {
  }

  lemma {:induction false} NameMore(v: View, w: View, t: StringTable, offset: u32, max: u32, name: Name)
    requires Extends(v, w) && NameFrom(v, t, offset, max, name)
    ensures NameFrom(w, t, offset, max, name)
  {
    var start := t.guest + offset;
    assert IsStringAt(v, start, name);
    assert Readable(w, start, |name| + 1);
    assert Bytes(w, start, |name|) == Bytes(v, start, |name|);
    assert start + |name| in v;
  }

  lemma {:induction false} NamesMore(v: View, w: View, m: Metadata, max: u32, s: Strings)
    requires Extends(v, w) && NamesFrom(v, m, max, s)
    ensures NamesFrom(w, m, max, s)
  {
    hide NameFrom, Extends;
    if m.stringTable.None? {
      return;
    }
    var t := m.stringTable.value;
    if s.soname.Some? {
      NameMore(v, w, t, m.sonameOffset.value, max, s.soname.value);
    }
    forall k | 0 <= k < |s.needed| ensures NameFrom(w, t, m.neededOffsets[k], max, s.needed[k]) {
      NameMore(v, w, t, m.neededOffsets[k], max, s.needed[k]);
    }
  }

  /** Edges do not matter, and neither does more memory. */
  lemma {:induction false} ObjectMore(v: View, w: View, o: Object, q: Object, max: u32)
    requires Extends(v, w) && ObjectFrom(v, q, max) && q == o.(dependencies := [])
    ensures ObjectFrom(w, o, max)
  {
    hide InRange, NamesFrom, TableFrom, Consistent, TablesFrom, FlagsFrom, ElfHeader, Headers, DecodeU32, Extends, Count;
    assert q.image == o.image && q.load == o.load && q.dynamicEntries == o.dynamicEntries && q.metadata == o.metadata && q.strings == o.strings;
    if Headers(o.image, 2, Count(o.image)) != [] {
      ReachesMore(v, w, o.metadata);
      NamesMore(v, w, o.metadata, max, o.strings);
    }
  }

  /** What a load put into memory is still there. */
  lemma {:induction false} HeldMore(s: Space, image: seq<u8>, bias: u32, s': Space, t: Space)
    requires WellFormed(s) && WellFormed(s') && WellFormed(t) && s.pageSize == s'.pageSize == t.pageSize
    requires ElfHeader(image) && InMemory(s, image, bias, s') && KeepsMapped(s', t)
    ensures HoldsImage(t, image, bias)
  {
    hide ElfHeader, OnPages, Headers, Flags, ByteFor, Count;
  }

  /** A genuine object is what its image says, in the memory as it is now. */
  lemma {:induction false} GenuineMeaning(r: Run, o: Object, dependency: bool, t: Space)
    requires WellFormed(t) && Genuine(r, o, dependency, t)
    ensures FromImage(o, r.options.maxStringBytes, t)
  {
    hide ElfHeader, HoldsImage, LoadFrom, ObjectFrom, Installed, ChosenBase, Inspected, InMemory, KeepsMapped, Extends;
    var s, s' :| InstalledObject(o, r.options.placement, r.options.maxStringBytes, s, s', t);
    var base :| ChosenBase(s, o.image, r.options.placement, base) && Installed(s, o.image, base, s', o.load.value);
    InstalledMeaning(s, o.image, base, s', o.load.value);
    HeldMore(s, o.image, o.load.value.bias, s', t);
    var fresh' := NewObject(o.identity, o.image).(load := o.load);
    InspectedExact(s, base, s', fresh', r.options.maxStringBytes, o.(dependencies := []));
    KeptView(s', t);
    ObjectMore(ViewOf(s'), ViewOf(t), o, o.(dependencies := []), r.options.maxStringBytes);
    assert LoadFrom(t.pageSize, o.image, base, o.load.value);
  }

  ghost predicate AllFromImages(r: Run, g: Graph, t: Space)
    requires WellFormed(t)
  {
    forall i :: r.first <= i < |g| && g[i].load.Some? ==> FromImage(g[i], r.options.maxStringBytes, t)
  }

  lemma {:induction false} AllGenuineMeaning(r: Run, g: Graph, t: Space)
    requires WellFormed(t) && AllGenuine(r, g, t, -1)
    ensures AllFromImages(r, g, t)
  {
    hide Genuine, FromImage;
    forall i | r.first <= i < |g| && g[i].load.Some? ensures FromImage(g[i], r.options.maxStringBytes, t) {
      GenuineMeaning(r, g[i], i != r.first, t);
    }
  }
}

/** An inspected object, told by bytes: its dynamic entries are the words of PT_DYNAMIC in its image,
    its metadata is that of the tags at its load bias, and its names are the strings they point at
    (src/elf/linking/elf32_dependency_loader.cpp:117-162). */
module ObjectMeaning {
  import opened Words
  import opened Views
  import opened AddressSpaces
  import opened LoadPlans
  import opened Loader
  import opened LoadImages
  import opened ImageHeaders
  import opened ImageMeaning
  import opened Objects
  import opened LinkerStrings
  import D = DynamicTable
  import M = MetadataTables
  import opened MetadataMeaning
  import opened ObjectLoading

  // ---------------------------------------------------------------------- dynamic entries

  /** The entry of the two words at `at`; the tag is a signed word. */
  predicate EntryFrom(b: seq<u8>, at: nat, e: DynamicEntry)
    requires at + 8 <= |b|
  {
    && e.tag == (if DecodeU32(b, at) < 0x8000_0000 then DecodeU32(b, at) else DecodeU32(b, at) - 0x1_0000_0000)
    && e.value == DecodeU32(b, at + 4)
  }

  /** The entries from the front of a byte string up to and including the first DT_NULL. */
  ghost predicate TableFrom(b: seq<u8>, es: seq<DynamicEntry>) {
    && es != [] && 8 * |es| <= |b| && es[|es| - 1].tag == 0
    && (forall k :: 0 <= k < |es| ==> EntryFrom(b, 8 * k, es[k]))
    && (forall k :: 0 <= k < |es| - 1 ==> es[k].tag != 0)
  }

  /** A part of the table that has not ended. */
  ghost predicate PartFrom(b: seq<u8>, es: seq<DynamicEntry>) {
    8 * |es| <= |b| && forall k :: 0 <= k < |es| ==> EntryFrom(b, 8 * k, es[k]) && es[k].tag != 0
  }

  lemma {:induction false} DecodeExact(b: seq<u8>, done: seq<DynamicEntry>, es: seq<DynamicEntry>)
    requires |b| % 8 == 0 && PartFrom(b, done)
    ensures D.DecodeTable(b, 8 * |done|, done) == Some(es) <==> TableFrom(b, es) && done <= es
    decreases |b| - 8 * |done|
  {
    hide DecodeU32;
    var at := 8 * |done|;
    if at == |b| {
      return;
    }
    var e := D.DecodeEntry(b, at);
    assert EntryFrom(b, at, e);
    if TableFrom(b, es) && done <= es {
      NextEntry(b, done, es);
    }
    if e.tag == 0 {
      LastEntry(b, done, e);
      if TableFrom(b, es) && done <= es { EndsThere(b, done, es); }
      return;
    }
    PartGrows(b, done, e);
    DecodeExact(b, done + [e], es);
    if TableFrom(b, es) && done <= es {
      assert done + [e] <= es;
    }
  }

  /** A table that goes on after `done` goes on with the next entry. */
  lemma {:induction false} NextEntry(b: seq<u8>, done: seq<DynamicEntry>, es: seq<DynamicEntry>)
    requires TableFrom(b, es) && PartFrom(b, done) && done <= es && 8 * |done| < |b| && |b| % 8 == 0
    ensures |done| < |es| && es[|done|] == D.DecodeEntry(b, 8 * |done|)
  {
    hide DecodeU32;
    assert |done| == |es| ==> es == done;
    assert EntryFrom(b, 8 * |done|, es[|done|]);
  }

  lemma {:induction false} EndsThere(b: seq<u8>, done: seq<DynamicEntry>, es: seq<DynamicEntry>)
    requires TableFrom(b, es) && done < es && es[|done|].tag == 0
    ensures es == done + [es[|done|]]
  {
    hide EntryFrom;
  }

  lemma {:induction false} LastEntry(b: seq<u8>, done: seq<DynamicEntry>, e: DynamicEntry)
    requires PartFrom(b, done) && 8 * |done| + 8 <= |b| && EntryFrom(b, 8 * |done|, e) && e.tag == 0
    ensures TableFrom(b, done + [e])
  {
    hide EntryFrom;
    var es := done + [e];
    forall k | 0 <= k < |es| ensures EntryFrom(b, 8 * k, es[k]) {
      if k < |done| { assert EntryFrom(b, 8 * k, done[k]); }
    }
  }

  lemma {:induction false} PartGrows(b: seq<u8>, done: seq<DynamicEntry>, e: DynamicEntry)
    requires PartFrom(b, done) && 8 * |done| + 8 <= |b| && EntryFrom(b, 8 * |done|, e) && e.tag != 0
    ensures PartFrom(b, done + [e])
  {
    hide EntryFrom;
    var es := done + [e];
    forall k | 0 <= k < |es| ensures EntryFrom(b, 8 * k, es[k]) && es[k].tag != 0 {
      if k < |done| { assert EntryFrom(b, 8 * k, done[k]); }
    }
  }

  // ------------------------------------------------------------------------------- names

  /** SONAME and the DT_NEEDED names, in order. */
  ghost predicate NamesFrom(v: View, m: Metadata, max: u32, s: Strings) {
    && s.soname.Some? == m.sonameOffset.Some? && |s.needed| == |m.neededOffsets|
    && (s.soname.Some? || s.needed != [] ==> m.stringTable.Some?)
    && (m.stringTable.Some? ==>
          && (s.soname.Some? ==> NameFrom(v, m.stringTable.value, m.sonameOffset.value, max, s.soname.value))
          && forall k :: 0 <= k < |s.needed| ==> NameFrom(v, m.stringTable.value, m.neededOffsets[k], max, s.needed[k]))
  }

  lemma {:induction false} NeededExact(v: View, t: StringTable, offsets: seq<u32>, max: u32, done: seq<Name>, names: seq<Name>)
    requires Readable(v, t.guest, t.size) && forall k :: 0 <= k < |offsets| ==> offsets[k] < t.size
    ensures ReadNeeded(v, t, offsets, max, done) == Ok(names) <==>
              && done <= names && |names| == |done| + |offsets|
              && forall k :: 0 <= k < |offsets| ==> NameFrom(v, t, offsets[k], max, names[|done| + k])
    decreases |offsets|
  {
    hide ReadString, NameFrom;
    if offsets == [] {
      assert done <= names && |names| == |done| ==> names == done;
      return;
    }
    var first := ReadString(v, t, offsets[0], max);
    var rest := offsets[1..];
    var lists := done <= names && |names| == |done| + |offsets| && forall k :: 0 <= k < |offsets| ==> NameFrom(v, t, offsets[k], max, names[|done| + k]);
    if lists {
      assert NameFrom(v, t, offsets[0], max, names[|done| + 0]);
      NameRead(v, t, offsets[0], max, names[|done|]);
    }
    if first.Err? {
      return;
    }
    NameRead(v, t, offsets[0], max, first.value);
    var more := done + [first.value];
    assert forall k :: 0 <= k < |rest| ==> rest[k] == offsets[k + 1];
    NeededExact(v, t, rest, max, more, names);
    if lists {
      forall k | 0 <= k < |rest| ensures NameFrom(v, t, rest[k], max, names[|more| + k]) {
        assert NameFrom(v, t, offsets[k + 1], max, names[|done| + (k + 1)]);
      }
    }
    if ReadNeeded(v, t, offsets, max, done) == Ok(names) {
      assert names[|done|] == more[|done|];
      forall k | 0 <= k < |offsets| ensures NameFrom(v, t, offsets[k], max, names[|done| + k]) {
        if k > 0 { assert NameFrom(v, t, rest[k - 1], max, names[|more| + (k - 1)]); }
      }
    }
  }

  /** With the tables in range, the names are exactly the strings at their offsets. */
  lemma {:induction false} NamesExact(v: View, m: Metadata, max: u32, s: Strings)
    requires M.GoodMetadata(v, m)
    ensures StringsOf(v, m, max) == Ok(s) <==> NamesFrom(v, m, max, s)
  {
    hide ReadString, ReadNeeded, NameFrom, M.GoodRelTable, M.GoodArray;
    if m.stringTable.None? {
      return;
    }
    var t := m.stringTable.value;
    NeededExact(v, t, m.neededOffsets, max, [], s.needed);
    assert forall k :: 0 <= k < |s.needed| ==> s.needed[0 + k] == s.needed[k];
    NoNeeded(v, t, max);
    if m.sonameOffset.Some? {
      var r := ReadString(v, t, m.sonameOffset.value, max);
      if r.Ok? { NameRead(v, t, m.sonameOffset.value, max, r.value); }
      if s.soname.Some? { NameRead(v, t, m.sonameOffset.value, max, s.soname.value); }
    }
  }

  lemma {:induction false} NoNeeded(v: View, t: StringTable, max: u32)
    ensures ReadNeeded(v, t, [], max, []) == Ok([])
  {
  }

  // ------------------------------------------------------------------------------ objects

  /** Entries, metadata and names of an object whose PT_DYNAMIC header is at `at`. */
  ghost predicate DynamicPart(v: View, o: Object, at: nat, max: u32)
    requires at + 32 <= |o.image| && o.load.Some?
  {
    var offset, size := DecodeU32(o.image, at + 4), DecodeU32(o.image, at + 16);
    && offset + size <= |o.image| && size % 8 == 0 && TableFrom(o.image[offset..offset + size], o.dynamicEntries)
    && Consistent(o.dynamicEntries) && TablesFrom(o.dynamicEntries, o.load.value.bias, o.metadata)
    && FlagsFrom(o.dynamicEntries, o.metadata) && InRange(v, o.metadata)
    && NamesFrom(v, o.metadata, max, o.strings)
  }

  /** The object is what its image says; `v` is the memory its names were read from. */
  ghost predicate ObjectFrom(v: View, o: Object, max: u32) {
    && o.load.Some? && ElfHeader(o.image)
    && var at := Headers(o.image, 2, Count(o.image));
       if at == [] then o.dynamicEntries == [] && o.metadata == NO_METADATA && o.strings == Strings(None, [])
       else DynamicPart(v, o, at[0], max)
  }

  /** The load found the PT_DYNAMIC header of the image, if there is one. */
  lemma {:induction false} DynamicFound(s: Space, image: seq<u8>, base: Option<u32>, s': Space, load: Load)
    requires WellFormed(s) && Installed(s, image, base, s', load)
    ensures ElfHeader(image) && WellFormed(s')
    ensures var at := Headers(image, 2, Count(image));
            && (at == [] <==> load.dynamicSegment.None?)
            && (load.dynamicSegment.Some? ==>
                  var offset, size := DecodeU32(image, at[0] + 4), DecodeU32(image, at[0] + 16);
                  && offset + size <= |image|
                  && D.ParseDynamic(ViewOf(s'), load.dynamicSegment.value)
                     == (if size % 8 != 0 then Err(D.TruncatedEntry)
                         else match D.DecodeTable(image[offset..offset + size], 0, [])
                              case Some(entries) => Ok(entries)
                              case None => Err(D.Unterminated)))
  {
    hide Installed, PlanOf, D.ParseDynamic, D.DecodeTable, DecodeU32, DecodeU16, ElfHeader, Headers, InMemory, LoadFrom, GoodPlan, Count;
    InstalledLayers(s, image, base, s', load);
    InstalledMeaning(s, image, base, s', load);
    DynamicListed(s.pageSize, image, base, load);
    if load.dynamicSegment.Some? {
      D.ParseAfterLoad(s, image, base, s', load);
      PlanDynamic(s.pageSize, image);
    }
  }

  lemma {:induction false} DynamicListed(ps: nat, image: seq<u8>, base: Option<u32>, load: Load)
    requires ps > 0 && ElfHeader(image) && LoadFrom(ps, image, base, load)
    ensures Headers(image, 2, Count(image)) == [] <==> load.dynamicSegment.None?
  {
    hide ElfHeader, BiasFrom, SegmentsAt, RelroSegmentAt, DecodeU32, Headers, Count;
  }

  lemma {:induction false} PlanDynamic(ps: nat, image: seq<u8>)
    requires ValidPageSize(ps) && PlanOf(ps, image).Ok? && PlanOf(ps, image).value.dynamicRange.Some?
    ensures ElfHeader(image)
    ensures var at, d := Headers(image, 2, Count(image)), PlanOf(ps, image).value.dynamicRange.value;
            |at| == 1 && d.offset == DecodeU32(image, at[0] + 4) && d.filesz == DecodeU32(image, at[0] + 16)
  {
    hide PlanOf, GoodPlan, ElfHeader, Headers, LoadsFrom, RelrosFrom, LargestAlignment, DecodeU32, DecodeU16, Count;
    PlanExact(ps, image, PlanOf(ps, image).value);
  }

  /** Right after a load, inspection gives exactly the object its image says. */
  lemma {:induction false} InspectedExact(s: Space, base: Option<u32>, s': Space, o: Object, max: u32, q: Object)
    requires WellFormed(s) && o.load.Some? && Installed(s, o.image, base, s', o.load.value)
    requires o.dynamicEntries == [] && o.metadata == NO_METADATA && o.strings == Strings(None, [])
    ensures WellFormed(s')
    ensures Inspected(ViewOf(s'), o, max) == Ok(q) <==>
              && q.identity == o.identity && q.image == o.image && q.load == o.load && q.dependencies == o.dependencies
              && ObjectFrom(ViewOf(s'), q, max)
  {
    hide Installed, D.ParseDynamic, D.DecodeTable, M.MetadataOf, StringsOf, DecodeU32, ElfHeader, Headers, DynamicPart, Count;
    DynamicFound(s, o.image, base, s', o.load.value);
    if o.load.value.dynamicSegment.None? {
      return;
    }
    PartExact(ViewOf(s'), o, Headers(o.image, 2, Count(o.image))[0], max, q);
  }

  lemma {:induction false} PartExact(v: View, o: Object, at: nat, max: u32, q: Object)
    requires o.load.Some? && o.load.value.dynamicSegment.Some? && at + 32 <= |o.image|
    requires var offset, size := DecodeU32(o.image, at + 4), DecodeU32(o.image, at + 16);
             && offset + size <= |o.image|
             && D.ParseDynamic(v, o.load.value.dynamicSegment.value)
                == (if size % 8 != 0 then Err(D.TruncatedEntry)
                    else match D.DecodeTable(o.image[offset..offset + size], 0, [])
                         case Some(entries) => Ok(entries)
                         case None => Err(D.Unterminated))
    ensures Inspected(v, o, max) == Ok(q) <==>
              && q.identity == o.identity && q.image == o.image && q.load == o.load && q.dependencies == o.dependencies
              && DynamicPart(v, q, at, max)
  {
    hide D.ParseDynamic, D.DecodeTable, M.MetadataOf, StringsOf, DecodeU32, TableFrom, Consistent, TablesFrom, FlagsFrom, InRange, NamesFrom,
      M.GoodMetadata;
    var offset: int, size: int := DecodeU32(o.image, at + 4), DecodeU32(o.image, at + 16);
    if size % 8 != 0 {
      return;
    }
    var b := o.image[offset..offset + size];
    NothingDecoded(b);
    DecodeExact(b, [], q.dynamicEntries);
    if D.DecodeTable(b, 0, []).None? {
      return;
    }
    var entries := D.DecodeTable(b, 0, []).value;
    DecodeExact(b, [], entries);
    MetadataExact(v, o.load.value.bias, entries, q.metadata);
    M.MetadataSound(v, o.load.value.bias, entries);
    var m := M.MetadataOf(v, o.load.value.bias, entries);
    if m.Ok? {
      MetadataExact(v, o.load.value.bias, entries, m.value);
      NamesExact(v, m.value, max, q.strings);
    }
  }

  lemma {:induction false} NothingDecoded(b: seq<u8>)
    ensures PartFrom(b, [])
  {
  }
}

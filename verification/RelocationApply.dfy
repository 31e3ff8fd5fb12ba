/** Writing the prepared words and undoing them on failure
    (src/elf/linking/elf32_relocation.cpp:580-706), over any memory whose failing
    write disturbs at most the four bytes it was aimed at. */
module RelocationApply {
  import opened Words
  import opened Views
  import opened AddressSpaces
  import opened Objects
  import opened Relocations
  import opened RelocationTheorems
  import opened RelocationMeaning

  // ------------------------------------------------------------------ an abstract memory

  /** `v` with the bytes `b` stored from `address` on, where readable. */
  function Patched(v: View, address: u32, b: seq<u8>): View {
    map a | a in v :: if address <= a < address + |b| then b[a - address] else v[a]
  }

  /** The fault oracle sees the attempt number, the address, the value and the
      contents.  `None` lets the write succeed; `Some(junk)` makes it fail and leaves
      the bytes `junk`, cut to four, behind. */
  class WordMemory {
    var view: View
    var attempts: nat
    const fault: (nat, u32, u32, View) -> Option<seq<u8>>

    constructor (v: View, f: (nat, u32, u32, View) -> Option<seq<u8>>)
      ensures view == v && fault == f
    {
      view, attempts, fault := v, 0, f;
    }

    method WriteWord(address: u32, value: u32) returns (ok: bool)
      modifies this
      ensures view.Keys == old(view).Keys
      ensures forall a :: a in view && !(address <= a < address + 4) ==> view[a] == old(view)[a]
      ensures ok && Readable(old(view), address, 4) ==> ReadWord(view, address) == Some(value)
      ensures !ok ==> fault(old(attempts), address, value, old(view)).Some?
    {
      var outcome := fault(attempts, address, value, view);
      attempts := attempts + 1;
      match outcome {
        case None =>
          view := Patched(view, address, EncodeU32(value));
          if Readable(old(view), address, 4) {
            assert Bytes(view, address, 4) == EncodeU32(value);
          }
          return true;
        case Some(junk) =>
          view := Patched(view, address, junk[..Min(4, |junk|)]);
          return false;
      }
    }

    /** restore_word: write the word back and read it again. */
    method RestoreWord(address: u32, original: u32) returns (ok: bool)
      modifies this
      ensures view.Keys == old(view).Keys
      ensures forall a :: a in view && !(address <= a < address + 4) ==> view[a] == old(view)[a]
      ensures ok ==> ReadWord(view, address) == Some(original)
      ensures (forall n, address, value, v :: fault(n, address, value, v).None?) && Readable(old(view), address, 4) ==> ok
    {
      hide ReadWord;
      ok := WriteWord(address, original);
      if ok {
        ok := ReadWord(view, address) == Some(original);
      }
    }
  }

  // ----------------------------------------------------------------------- comparing views

  ghost predicate SameWord(v: View, base: View, w: Write) {
    forall a :: InWord(a, w) ==> a in v && a in base && v[a] == base[a]
  }

  /** `v` differs from `base` inside the words of `ws` only. */
  ghost predicate SameElsewhere(v: View, base: View, ws: seq<Write>) {
    && v.Keys == base.Keys
    && forall a :: a in v && (forall k :: 0 <= k < |ws| ==> !InWord(a, ws[k])) ==> v[a] == base[a]
  }

  /** `v` is `base` with each target holding its final word and nothing else changed. */
  ghost predicate Overridden(v: View, base: View, ws: seq<Write>) {
    SameElsewhere(v, base, ws) && forall k :: 0 <= k < |ws| ==> ReadWord(v, ws[k].place) == Some(ws[k].final)
  }

  /** Two readable words with one value have the same bytes. */
  lemma {:induction false} WordBytes(v: View, base: View, w: Write)
    requires ReadWord(v, w.place).Some? && ReadWord(v, w.place) == ReadWord(base, w.place)
    ensures SameWord(v, base, w)
  {
    var b, c := Bytes(v, w.place, 4), Bytes(base, w.place, 4);
    EncodeDecodeU32(b);
    EncodeDecodeU32(c);
    assert b == c;
    forall a | InWord(a, w)
      ensures a in v && a in base && v[a] == base[a]
    {
      assert b[a - w.place] == v[a] && c[a - w.place] == base[a];
    }
  }

  lemma {:induction false} SameWordReads(v: View, base: View, w: Write)
    requires SameWord(v, base, w)
    ensures ReadWord(v, w.place) == ReadWord(base, w.place)
  {
    assert Bytes(v, w.place, 4) == Bytes(base, w.place, 4);
  }

  /** The final contents are determined by the pre-state and the writes. */
  lemma {:induction false} OverriddenUnique(v: View, u: View, base: View, ws: seq<Write>)
    requires Overridden(v, base, ws) && Overridden(u, base, ws)
    ensures v == u
  {
    hide ReadWord;
    forall a | a in v
      ensures v[a] == u[a]
    {
      if k :| 0 <= k < |ws| && InWord(a, ws[k]) {
        WordBytes(v, u, ws[k]);
      }
    }
  }

  /** All words as before and nothing else changed: the same memory. */
  lemma {:induction false} RestoredAll(v: View, base: View, ws: seq<Write>)
    requires SameElsewhere(v, base, ws) && forall k :: 0 <= k < |ws| ==> SameWord(v, base, ws[k])
    ensures v == base
  {
    forall a | a in v
      ensures v[a] == base[a]
    {
      if k :| 0 <= k < |ws| && InWord(a, ws[k]) {
        assert SameWord(v, base, ws[k]);
      }
    }
  }

  /** A change inside word `i` leaves the other words and the rest alone. */
  lemma {:induction false} OneWordChanged(now: View, before: View, base: View, ws: seq<Write>, i: nat)
    requires GoodWrites(base, ws) && i < |ws| && before.Keys == base.Keys && now.Keys == before.Keys
    requires forall a :: a in now && !InWord(a, ws[i]) ==> now[a] == before[a]
    ensures forall k :: 0 <= k < |ws| && k != i ==> SameWord(now, before, ws[k])
    ensures SameElsewhere(before, base, ws) ==> SameElsewhere(now, base, ws)
  {
    hide ReadWord;
    forall k | 0 <= k < |ws| && k != i
      ensures SameWord(now, before, ws[k])
    {
      assert GoodWrite(base, ws[k]);
      GoodReads(base, ws[k]);
      forall a | InWord(a, ws[k])
        ensures a in now && a in before && now[a] == before[a]
      {
        WordsDisjoint(base, ws, k, i, a);
        assert a in base.Keys;
      }
    }
  }

  lemma {:induction false} GoodReads(base: View, w: Write)
    requires GoodWrite(base, w)
    ensures Readable(base, w.place, 4) && forall a :: InWord(a, w) ==> a in base
  {
  }

  // --------------------------------------------------------------------- the transaction

  datatype Culprit = Culprit(relocation: u32, table: Table)

  datatype Application =
    | Applied(writes: seq<Write>)
    | Failed(error: ApplyError, primary: ApplyError, relocation: Option<u32>, table: Option<Table>, rollback: Option<Culprit>)

  /** Undo the writes below `i` in reverse, after write `i` has failed. */
  method Undo(m: WordMemory, ws: seq<Write>, i: nat, ghost base: View) returns (culprit: Option<Culprit>)
    requires GoodWrites(base, ws) && i < |ws| && SameElsewhere(m.view, base, ws)
    requires forall k :: i < k < |ws| ==> SameWord(m.view, base, ws[k])
    modifies m
    ensures SameElsewhere(m.view, base, ws)
    ensures culprit.None? ==> m.view == base
  {
    hide ReadWord, InWord, SameElsewhere, GoodWrite;
    culprit := None;
    assert GoodWrite(base, ws[i]);
    GoodReadsWord(base, ws[i]);
    ghost var before := m.view;
    if ReadWord(m.view, ws[i].place) != Some(ws[i].original) {
      var ok := m.RestoreWord(ws[i].place, ws[i].original);
      Touched(m.view, before, base, ws, i);
      if !ok {
        culprit := Some(Culprit(ws[i].index, ws[i].table));
      }
    }
    if culprit.None? {
      WordBytes(m.view, base, ws[i]);
    }
    var j := i;
    while j > 0
      invariant 0 <= j <= i
      invariant SameElsewhere(m.view, base, ws)
      invariant culprit.None? ==> forall k :: j <= k < |ws| ==> SameWord(m.view, base, ws[k])
    {
      j := j - 1;
      assert GoodWrite(base, ws[j]);
      GoodReadsWord(base, ws[j]);
      before := m.view;
      var ok := m.RestoreWord(ws[j].place, ws[j].original);
      Touched(m.view, before, base, ws, j);
      if ok {
        WordBytes(m.view, base, ws[j]);
      } else if culprit.None? {
        culprit := Some(Culprit(ws[j].index, ws[j].table));
      }
    }
    if culprit.None? {
      RestoredAll(m.view, base, ws);
    }
  }

  lemma {:induction false} GoodReadsWord(base: View, w: Write)
    requires GoodWrite(base, w)
    ensures ReadWord(base, w.place) == Some(w.original)
  {
  }

  /** After a write aimed at word `i`: words that agreed with `base` still do, except perhaps word `i`. */
  lemma {:induction false} Touched(now: View, before: View, base: View, ws: seq<Write>, i: nat)
    requires GoodWrites(base, ws) && i < |ws| && SameElsewhere(before, base, ws) && now.Keys == before.Keys
    requires forall a :: a in now && !(ws[i].place <= a < ws[i].place + 4) ==> now[a] == before[a]
    ensures SameElsewhere(now, base, ws)
    ensures forall k :: 0 <= k < |ws| && k != i && SameWord(before, base, ws[k]) ==> SameWord(now, base, ws[k])
    ensures forall k :: 0 <= k < |ws| && k != i ==> ReadWord(now, ws[k].place) == ReadWord(before, ws[k].place)
  {
    hide ReadWord;
    OneWordChanged(now, before, base, ws, i);
    forall k | 0 <= k < |ws| && k != i
      ensures ReadWord(now, ws[k].place) == ReadWord(before, ws[k].place)
    {
      SameWordReads(now, before, ws[k]);
    }
  }

  /** apply_pending_relocations.  Whatever the faults: success overrides exactly the
      targets, a failure other than RollbackFailed leaves the memory as it was, and
      RollbackFailed has changed target words only. */
  method ApplyPending(m: WordMemory, ws: seq<Write>) returns (r: Application)
    requires GoodWrites(m.view, ws)
    modifies m
    ensures r.Applied? ==> r.writes == ws && Overridden(m.view, old(m.view), ws)
    ensures r.Failed? ==> r.error in {TargetWriteFailed, RollbackFailed} && r.primary == TargetWriteFailed
    ensures r.Failed? ==> exists k :: 0 <= k < |ws| && r.relocation == Some(ws[k].index) && r.table == Some(ws[k].table)
    ensures r.Failed? && r.error == TargetWriteFailed ==> m.view == old(m.view)
    ensures r.Failed? && r.error == RollbackFailed ==> SameElsewhere(m.view, old(m.view), ws) && r.rollback.Some?
    ensures (forall n, address, value, v :: m.fault(n, address, value, v).None?) ==> r.Applied?
  {
    hide ReadWord, InWord, SameElsewhere, GoodWrite;
    ghost var base := m.view;
    NothingChanged(base, ws);
    for i := 0 to |ws|
      invariant SameElsewhere(m.view, base, ws)
      invariant forall k :: 0 <= k < i ==> ReadWord(m.view, ws[k].place) == Some(ws[k].final)
      invariant forall k :: i <= k < |ws| ==> SameWord(m.view, base, ws[k])
    {
      ghost var before := m.view;
      assert GoodWrite(base, ws[i]);
      StillReadable(before, base, ws, i);
      var ok := m.WriteWord(ws[i].place, ws[i].final);
      Touched(m.view, before, base, ws, i);
      if !ok {
        var culprit := Undo(m, ws, i, base);
        return Failed(if culprit.Some? then RollbackFailed else TargetWriteFailed, TargetWriteFailed,
                      Some(ws[i].index), Some(ws[i].table), culprit);
      }
    }
    return Applied(ws);
  }

  lemma {:induction false} NothingChanged(base: View, ws: seq<Write>)
    requires GoodWrites(base, ws)
    ensures SameElsewhere(base, base, ws) && forall k :: 0 <= k < |ws| ==> SameWord(base, base, ws[k])
  {
    hide ReadWord;
    forall k | 0 <= k < |ws|
      ensures SameWord(base, base, ws[k])
    {
      assert GoodWrite(base, ws[k]);
      GoodReads(base, ws[k]);
    }
  }

  lemma {:induction false} StillReadable(v: View, base: View, ws: seq<Write>, i: nat)
    requires SameElsewhere(v, base, ws) && i < |ws| && GoodWrite(base, ws[i])
    ensures Readable(v, ws[i].place, 4)
  {
    hide ReadWord;
    GoodReads(base, ws[i]);
    forall a | ws[i].place <= a < ws[i].place + 4
      ensures a in v
    {
      assert InWord(a, ws[i]);
      assert a in base.Keys;
    }
  }

  /** apply_elf32_combined_relocations: the words stored are a function of the
      pre-state alone, even where a target lies inside a relocation, symbol or hash
      table of the same object. */
  method ApplyCombined(m: WordMemory, g: Graph, at: nat, o: RelocationOptions) returns (r: Application)
    modifies m
    ensures r.Applied? ==> CombinedWrites(old(m.view), g, at, o) == Ok(r.writes) && Overridden(m.view, old(m.view), r.writes)
    ensures r.Applied? ==> TableStored(old(m.view), m.view, g, at, o, MainRel) && TableStored(old(m.view), m.view, g, at, o, PltRel)
    ensures r.Failed? && r.error != RollbackFailed ==> m.view == old(m.view)
    ensures r.Failed? && r.error == RollbackFailed ==>
              && CombinedWrites(old(m.view), g, at, o).Ok?
              && SameElsewhere(m.view, old(m.view), CombinedWrites(old(m.view), g, at, o).value)
    ensures CombinedWrites(old(m.view), g, at, o).Err? ==>
              var f := CombinedWrites(old(m.view), g, at, o).error;
              r == Failed(f.error, f.error, f.relocation, f.table, None)
    ensures (forall n, address, value, v :: m.fault(n, address, value, v).None?) ==>
              (r.Applied? <==> CombinedWrites(old(m.view), g, at, o).Ok?)
  {
    hide CombinedWrites, SameElsewhere, GoodWrites, Overridden, TableStored, AllWritten;
    var prepared := PrepareCombined(m.view, g, at, o);
    if prepared.Err? {
      var f := prepared.error;
      CombinedErrors(m.view, g, at, o);
      return Failed(f.error, f.error, f.relocation, f.table, None);
    }
    CombinedMeaning(m.view, g, at, o);
    r := ApplyPending(m, prepared.value);
    if r.Applied? {
      OverriddenWritten(m.view, old(m.view), r.writes);
      CombinedStored(old(m.view), m.view, g, at, o);
    }
  }

  lemma {:induction false} OverriddenWritten(v: View, base: View, ws: seq<Write>)
    requires Overridden(v, base, ws)
    ensures AllWritten(v, ws)
  {
    hide ReadWord, SameElsewhere;
  }

  /** Preparing never reports the two errors of the write phase. */
  lemma {:induction false} CombinedErrors(v: View, g: Graph, at: nat, o: RelocationOptions)
    requires CombinedWrites(v, g, at, o).Err?
    ensures CombinedWrites(v, g, at, o).error.error !in {TargetWriteFailed, RollbackFailed}
  {
    hide PreparedWrites;
    if PreparedWrites(v, g, at, o, MainRel).Err? {
      PreparedErrors(v, g, at, o, MainRel);
    } else if PreparedWrites(v, g, at, o, PltRel).Err? {
      PreparedErrors(v, g, at, o, PltRel);
    }
  }

  lemma {:induction false} PreparedErrors(v: View, g: Graph, at: nat, o: RelocationOptions, table: Table)
    requires PreparedWrites(v, g, at, o, table).Err?
    ensures PreparedWrites(v, g, at, o, table).error.error !in {TargetWriteFailed, RollbackFailed}
  {
    hide ResolutionOf;
    var resolution := ResolutionOf(v, g, at, o, table);
    if resolution.Ok? && at < |g| {
      WritesFromErrors(g[at].Bias(), resolution.value, table, []);
    }
  }

  lemma {:induction false} WritesFromErrors(bias: u32, rs: seq<Resolved>, table: Table, done: seq<Write>)
    ensures WritesFrom(bias, rs, table, done).Err? ==> WritesFrom(bias, rs, table, done).error.0 !in {TargetWriteFailed, RollbackFailed}
    decreases |rs|
  {
    hide FinalWord;
    if rs == [] {
      return;
    }
    var e := rs[0].entry;
    if e.kind == R_ARM_NONE {
      WritesFromErrors(bias, rs[1..], table, done);
      return;
    }
    FinalWordErrors(bias, rs[0]);
    var final := FinalWord(bias, rs[0]);
    if final.Ok? {
      WritesFromErrors(bias, rs[1..], table,
                       done + [Write(e.index, e.kind, e.place, if e.original.Some? then e.original.value else 0, final.value, table)]);
    }
  }

  lemma {:induction false} FinalWordErrors(bias: u32, r: Resolved)
    ensures FinalWord(bias, r).Err? ==> FinalWord(bias, r).error !in {TargetWriteFailed, RollbackFailed}
  {
    hide WrapAdd, WrapSub, WithBit0, WithoutBit0, IsThumb;
  }

  // ---------------------------------------------------------------------- the mapped memory

  /** A write to a mapped guest memory is such a write: the readers see exactly the four
      bytes patched. */
  lemma {:induction false} MappedWordWrite(s: Space, address: u32, value: u32)
    requires WellFormed(s) && address + 4 <= ADDRESS_SPACE
    ensures ViewOf(WithBytes(s, address, EncodeU32(value))) == Patched(ViewOf(s), address, EncodeU32(value))
  {
    var t := WithBytes(s, address, EncodeU32(value));
    var v, u := ViewOf(t), Patched(ViewOf(s), address, EncodeU32(value));
    assert v.Keys == u.Keys;
    forall a | a in v
      ensures v[a] == u[a]
    {
    }
  }
}

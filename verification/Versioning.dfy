/** Bounded walks over the GNU symbol-version records (src/elf/linking/elf32_symbol_versioning.cpp). */
module Versioning {
  import opened SortedLists
  import opened Words
  import opened Views
  import opened Objects
  import opened LinkerStrings

  datatype VersionError =
    | InvalidOptions | InvalidMetadata | ReadFailed | StringReadFailed(cause: StringError) | InvalidRecord
    | RecordLimitExceeded | VersionIndexNotFound | DependencyNotFound

  /** One version named by a VERNAUX or VERDEF record. */
  datatype Candidate = Candidate(index: int, hash: u32, name: Name, target: nat)

  datatype Requirement = Requirement(hash: u32, name: Name, target: nat)

  datatype Want = ByIndex(index: int) | ByName(hash: u32, name: Name)

  predicate Wanted(want: Want, c: Candidate) {
    match want
    case ByIndex(i) => c.index == i
    case ByName(h, n) => c.hash == h && c.name == n
  }

  datatype Limits = Limits(records: u32, nameBytes: u32)

  /** A walk in progress: the budget used, the addresses read, the last wanted candidate, and why
      the walk stopped. */
  datatype Walk = Walk(used: nat, visited: seq<u32>, found: Option<Candidate>, stop: Option<VersionError>)

  const EMPTY_WALK := Walk(0, [], None, None)

  function Visit(w: Walk, address: u32): Walk { w.(used := w.used + 1, visited := w.visited + [address]) }

  function See(w: Walk, want: Want, c: Candidate): Walk {
    w.(found := if Wanted(want, c) then Some(c) else w.found)
  }

  function Stop(w: Walk, e: VersionError): Walk { w.(stop := Some(e)) }

  /** The VERNAUX chain of one VERNEED record; `left` records remain. */
  function WalkAux(v: View, t: StringTable, limits: Limits, want: Want, target: nat, address: u32, left: nat, w: Walk): Walk
    decreases left
  {
    if left == 0 then w
    else if w.used >= limits.records then Stop(w, RecordLimitExceeded)
    else
      var w1 := Visit(w, address);
      match Read(v, address, 16)
      case None => Stop(w1, VersionError.ReadFailed)
      case Some(b) =>
        match ReadString(v, t, DecodeU32(b, 8), limits.nameBytes)
        case Err(e) => Stop(w1, StringReadFailed(e))
        case Ok(name) =>
          var w2 := See(w1, want, Candidate(DecodeU16(b, 6) % 0x8000, DecodeU32(b, 0), name, target));
          if left == 1 then w2
          else if DecodeU32(b, 12) == 0 || address + DecodeU32(b, 12) >= ADDRESS_SPACE then Stop(w2, InvalidRecord)
          else WalkAux(v, t, limits, want, target, address + DecodeU32(b, 12), left - 1, w2)
  }

  datatype Dependency = Found(target: nat) | Missing | BadEdge

  /** dependency_for_soname: the first edge whose target carries the name. */
  function DependencyFor(g: Graph, edges: seq<Edge>, soname: Name): Dependency {
    if edges == [] then Missing
    else if edges[0].target >= |g| then BadEdge
    else if g[edges[0].target].strings.soname == Some(soname) then Found(edges[0].target)
    else DependencyFor(g, edges[1..], soname)
  }

  /** One VERNEED record with its VERNAUX chain. */
  function WalkNeed(v: View, g: Graph, edges: seq<Edge>, t: StringTable, limits: Limits, want: Want, head: u32, w: Walk): Walk {
    if w.used >= limits.records then Stop(w, RecordLimitExceeded)
    else
      var w1 := Visit(w, head);
      match Read(v, head, 16)
      case None => Stop(w1, VersionError.ReadFailed)
      case Some(b) =>
        if DecodeU16(b, 0) != 1 || DecodeU16(b, 2) == 0 || DecodeU32(b, 8) == 0 then Stop(w1, InvalidRecord)
        else match ReadString(v, t, DecodeU32(b, 4), limits.nameBytes)
             case Err(e) => Stop(w1, StringReadFailed(e))
             case Ok(file) =>
               match DependencyFor(g, edges, file)
               case BadEdge => Stop(w1, InvalidMetadata)
               case Missing => Stop(w1, DependencyNotFound)
               case Found(target) =>
                 if head + DecodeU32(b, 8) >= ADDRESS_SPACE then Stop(w1, InvalidRecord)
                 else WalkAux(v, t, limits, want, target, head + DecodeU32(b, 8), DecodeU16(b, 2), w1)
  }

  /** The VERNEED chain. */
  function WalkNeeds(v: View, g: Graph, edges: seq<Edge>, t: StringTable, limits: Limits, want: Want,
                     address: u32, left: nat, w: Walk): Walk
    decreases left
  {
    if left == 0 then w
    else
      var w2 := WalkNeed(v, g, edges, t, limits, want, address, w);
      if w2.stop.Some? || left == 1 then w2
      else match NextRecord(v, 16, 12, address)
           case None => Stop(w2, InvalidRecord)
           case Some(next) => WalkNeeds(v, g, edges, t, limits, want, next, left - 1, w2)
  }

  /** The name of one VERDEF record: nothing for a base definition. */
  function WalkDef(v: View, t: StringTable, limits: Limits, want: Want, owner: nat, address: u32, b: seq<u8>, w: Walk): Walk
    requires |b| == 20
  {
    if DecodeU16(b, 2) % 2 == 1 then w
    else if DecodeU16(b, 6) == 0 || DecodeU32(b, 12) == 0 then Stop(w, InvalidRecord)
    else if w.used >= limits.records then Stop(w, RecordLimitExceeded)
    else if address + DecodeU32(b, 12) >= ADDRESS_SPACE then Stop(w.(used := w.used + 1), InvalidRecord)
    else
      var aux := address + DecodeU32(b, 12);
      var w1 := Visit(w, aux);
      match Read(v, aux, 8)
      case None => Stop(w1, VersionError.ReadFailed)
      case Some(a) =>
        match ReadString(v, t, DecodeU32(a, 0), limits.nameBytes)
        case Err(e) => Stop(w1, StringReadFailed(e))
        case Ok(name) => See(w1, want, Candidate(DecodeU16(b, 4) % 0x8000, DecodeU32(b, 8), name, owner))
  }

  /** One VERDEF record with the record of its name. */
  function WalkDefRecord(v: View, t: StringTable, limits: Limits, want: Want, owner: nat, head: u32, w: Walk): Walk {
    if w.used >= limits.records then Stop(w, RecordLimitExceeded)
    else
      var w1 := Visit(w, head);
      match Read(v, head, 20)
      case None => Stop(w1, VersionError.ReadFailed)
      case Some(b) => if DecodeU16(b, 0) != 1 then Stop(w1, InvalidRecord) else WalkDef(v, t, limits, want, owner, head, b, w1)
  }

  /** The VERDEF chain. */
  function WalkDefs(v: View, t: StringTable, limits: Limits, want: Want, owner: nat, address: u32, left: nat, w: Walk): Walk
    decreases left
  {
    if left == 0 then w
    else
      var w2 := WalkDefRecord(v, t, limits, want, owner, address, w);
      if w2.stop.Some? || left == 1 then w2
      else match NextRecord(v, 20, 16, address)
           case None => Stop(w2, InvalidRecord)
           case Some(next) => WalkDefs(v, t, limits, want, owner, next, left - 1, w2)
  }

  function ReadVersym(v: View, table: u32, symbol: u32): Option<u16> {
    match CheckedAdd(table, 2 * symbol)
    case None => None
    case Some(address) => match Read(v, address, 2) case None => None case Some(b) => Some(DecodeU16(b, 0))
  }

  predicate NoDescriptor(m: Metadata) { m.versym.None? && m.verdef.None? && m.verneed.None? }

  /** Both chains, VERNEED first. */
  function WalkRequirement(v: View, g: Graph, requester: nat, t: StringTable, limits: Limits, want: Want): Walk
    requires requester < |g|
  {
    var m := g[requester].metadata;
    var w := if m.verneed.None? then EMPTY_WALK
             else WalkNeeds(v, g, g[requester].dependencies, t, limits, want, m.verneed.value.guest, m.verneed.value.count, EMPTY_WALK);
    if w.stop.Some? || m.verdef.None? then w
    else WalkDefs(v, t, limits, want, requester, m.verdef.value.guest, m.verdef.value.count, w)
  }

  /** resolve_elf32_symbol_version_requirement. */
  function RequirementOf(v: View, g: Graph, requester: nat, symbol: u32, limits: Limits)
    : Result<Option<Requirement>, VersionError>
  {
    if requester >= |g| then Err(InvalidMetadata)
    else
      var m := g[requester].metadata;
      if m.hasVersioning && NoDescriptor(m) then Err(InvalidMetadata)
      else if m.versym.None? then Ok(None)
      else match ReadVersym(v, m.versym.value, symbol)
           case None => Err(VersionError.ReadFailed)
           case Some(raw) =>
             if raw % 0x8000 <= 1 then Ok(None)
             else if limits.records == 0 || limits.nameBytes == 0 then Err(InvalidOptions)
             else if m.stringTable.None? then Err(InvalidMetadata)
             else
               var w := WalkRequirement(v, g, requester, m.stringTable.value, limits, ByIndex(raw % 0x8000));
               if w.stop.Some? then Err(w.stop.value)
               else match w.found
                    case None => Err(VersionIndexNotFound)
                    case Some(c) => Ok(Some(Requirement(c.hash, c.name, c.target)))
  }

  /** match_elf32_symbol_version. */
  function MatchVersion(v: View, m: Metadata, symbol: u32, requirement: Option<Requirement>, limits: Limits)
    : Result<bool, VersionError>
  {
    if m.hasVersioning && NoDescriptor(m) then Err(InvalidMetadata)
    else if m.versym.None? then Ok(true)
    else match ReadVersym(v, m.versym.value, symbol)
         case None => Err(VersionError.ReadFailed)
         case Some(raw) =>
           if requirement.None? then Ok(raw < 0x8000)
           else if m.verdef.None? then Ok(raw % 0x8000 == 1)
           else if limits.records == 0 || limits.nameBytes == 0 then Err(InvalidOptions)
           else if m.stringTable.None? then Err(InvalidMetadata)
           else
             var w := WalkDefs(v, m.stringTable.value, limits, ByName(requirement.value.hash, requirement.value.name), 0,
                               m.verdef.value.guest, m.verdef.value.count, EMPTY_WALK);
             if w.stop.Some? then Err(w.stop.value)
             else Ok(raw % 0x8000 == if w.found.Some? then w.found.value.index else 1)
  }

  // -------------------------------------------------------------------- the loops

  method WalkVernaux(v: View, t: StringTable, limits: Limits, want: Want, target: nat, start: u32, count: nat, w0: Walk)
    returns (w: Walk)
    ensures w == WalkAux(v, t, limits, want, target, start, count, w0)
  {
    hide Read, DecodeU16, DecodeU32, ReadString;
    w := w0;
    var aux: u32 := start;
    var j := 0;
    while j < count
      invariant 0 <= j <= count
      invariant WalkAux(v, t, limits, want, target, aux, count - j, w) == WalkAux(v, t, limits, want, target, start, count, w0)
    {
      if w.used >= limits.records {
        return Stop(w, RecordLimitExceeded);
      }
      w := Visit(w, aux);
      var record := Read(v, aux, 16);
      if record.None? {
        return Stop(w, VersionError.ReadFailed);
      }
      var b := record.value;
      var name := ReadStringEntry(v, t, DecodeU32(b, 8), limits.nameBytes);
      if name.Err? {
        return Stop(w, StringReadFailed(name.error));
      }
      w := See(w, want, Candidate(DecodeU16(b, 6) % 0x8000, DecodeU32(b, 0), name.value, target));
      if j + 1 < count {
        var next := DecodeU32(b, 12);
        if next == 0 || aux + next >= ADDRESS_SPACE {
          return Stop(w, InvalidRecord);
        }
        aux := aux + next;
      }
      j := j + 1;
    }
  }

  method WalkVerneed(v: View, g: Graph, edges: seq<Edge>, t: StringTable, limits: Limits, want: Want,
                     start: u32, count: nat, w0: Walk) returns (w: Walk)
    requires w0.stop.None?
    ensures w == WalkNeeds(v, g, edges, t, limits, want, start, count, w0)
  {
    hide Read, DecodeU16, DecodeU32, ReadString, WalkAux, DependencyFor;
    w := w0;
    var current: u32 := start;
    var i := 0;
    while i < count
      invariant 0 <= i <= count && w.stop.None?
      invariant WalkNeeds(v, g, edges, t, limits, want, current, count - i, w)
                == WalkNeeds(v, g, edges, t, limits, want, start, count, w0)
    {
      if w.used >= limits.records {
        return Stop(w, RecordLimitExceeded);
      }
      w := Visit(w, current);
      var record := Read(v, current, 16);
      if record.None? {
        return Stop(w, VersionError.ReadFailed);
      }
      var b := record.value;
      if DecodeU16(b, 0) != 1 || DecodeU16(b, 2) == 0 || DecodeU32(b, 8) == 0 {
        return Stop(w, InvalidRecord);
      }
      var file := ReadStringEntry(v, t, DecodeU32(b, 4), limits.nameBytes);
      if file.Err? {
        return Stop(w, StringReadFailed(file.error));
      }
      var dependency := FindDependency(g, edges, file.value);
      if dependency.BadEdge? {
        return Stop(w, InvalidMetadata);
      }
      if dependency.Missing? {
        return Stop(w, DependencyNotFound);
      }
      if current + DecodeU32(b, 8) >= ADDRESS_SPACE {
        return Stop(w, InvalidRecord);
      }
      w := WalkVernaux(v, t, limits, want, dependency.target, current + DecodeU32(b, 8), DecodeU16(b, 2), w);
      if w.stop.Some? {
        return;
      }
      if i + 1 < count {
        var next := DecodeU32(b, 12);
        if next == 0 || current + next >= ADDRESS_SPACE {
          return Stop(w, InvalidRecord);
        }
        current := current + next;
      }
      i := i + 1;
    }
  }

  method FindDependency(g: Graph, edges: seq<Edge>, soname: Name) returns (d: Dependency)
    ensures d == DependencyFor(g, edges, soname)
  {
    var i := 0;
    while i < |edges|
      invariant 0 <= i <= |edges|
      invariant DependencyFor(g, edges[i..], soname) == DependencyFor(g, edges, soname)
    {
      assert edges[i..][1..] == edges[i + 1..];
      if edges[i].target >= |g| {
        return BadEdge;
      }
      if g[edges[i].target].strings.soname == Some(soname) {
        return Found(edges[i].target);
      }
      i := i + 1;
    }
    return Missing;
  }

  method WalkVerdef(v: View, t: StringTable, limits: Limits, want: Want, owner: nat, start: u32, count: nat, w0: Walk)
    returns (w: Walk)
    requires w0.stop.None?
    ensures w == WalkDefs(v, t, limits, want, owner, start, count, w0)
  {
    hide Read, DecodeU16, DecodeU32, ReadString, WalkDef;
    w := w0;
    var current: u32 := start;
    var i := 0;
    while i < count
      invariant 0 <= i <= count && w.stop.None?
      invariant WalkDefs(v, t, limits, want, owner, current, count - i, w)
                == WalkDefs(v, t, limits, want, owner, start, count, w0)
    {
      if w.used >= limits.records {
        return Stop(w, RecordLimitExceeded);
      }
      w := Visit(w, current);
      var record := Read(v, current, 20);
      if record.None? {
        return Stop(w, VersionError.ReadFailed);
      }
      var b := record.value;
      if DecodeU16(b, 0) != 1 {
        return Stop(w, InvalidRecord);
      }
      w := WalkDef(v, t, limits, want, owner, current, b, w);
      if w.stop.Some? {
        return;
      }
      if i + 1 < count {
        var next := DecodeU32(b, 16);
        if next == 0 || current + next >= ADDRESS_SPACE {
          return Stop(w, InvalidRecord);
        }
        current := current + next;
      }
      i := i + 1;
    }
  }

  // ------------------------------------------------------- what the tables hold, by their bytes

  /** The record after the one at `address`, if its next offset leads anywhere. */
  function NextRecord(v: View, size: nat, at: nat, address: u32): Option<u32>
    requires at + 4 <= size
  {
    match Read(v, address, size)
    case None => None
    case Some(b) =>
      if DecodeU32(b, at) == 0 || address + DecodeU32(b, at) >= ADDRESS_SPACE then None else Some(address + DecodeU32(b, at))
  }

  /** The addresses of a chain of at most `left` records. */
  function Chain(v: View, size: nat, at: nat, address: u32, left: nat): seq<u32>
    requires at + 4 <= size
    decreases left
  {
    if left == 0 then []
    else [address] + match NextRecord(v, size, at, address)
                     case None => []
                     case Some(next) => if left == 1 then [] else Chain(v, size, at, next, left - 1)
  }

  /** VERNEED and VERNAUX records have 16 bytes and their next offset at 12; VERDEF records have 20
      bytes and theirs at 16. */
  function NeedChain(v: View, address: u32, left: nat): seq<u32> { Chain(v, 16, 12, address, left) }

  function DefChain(v: View, address: u32, left: nat): seq<u32> { Chain(v, 20, 16, address, left) }

  /** The VERNAUX chain of the VERNEED record at `head`. */
  function AuxOf(v: View, head: u32): seq<u32> {
    match Read(v, head, 16)
    case None => []
    case Some(b) =>
      if DecodeU32(b, 8) == 0 || head + DecodeU32(b, 8) >= ADDRESS_SPACE then []
      else NeedChain(v, head + DecodeU32(b, 8), DecodeU16(b, 2))
  }

  /** The version a VERNAUX record names. */
  function AuxCandidate(v: View, t: StringTable, max: u32, target: nat, address: u32): Option<Candidate> {
    match Read(v, address, 16)
    case None => None
    case Some(b) =>
      match ReadString(v, t, DecodeU32(b, 8), max)
      case Err(_) => None
      case Ok(name) => Some(Candidate(DecodeU16(b, 6) % 0x8000, DecodeU32(b, 0), name, target))
  }

  function AuxCandidates(v: View, t: StringTable, max: u32, target: nat, chain: seq<u32>): seq<Candidate> {
    if chain == [] then []
    else match AuxCandidate(v, t, max, target, chain[0])
         case None => AuxCandidates(v, t, max, target, chain[1..])
         case Some(c) => [c] + AuxCandidates(v, t, max, target, chain[1..])
  }

  predicate AuxReadable(v: View, t: StringTable, max: u32, chain: seq<u32>) {
    chain == [] || (AuxCandidate(v, t, max, 0, chain[0]).Some? && AuxReadable(v, t, max, chain[1..]))
  }

  /** The object a VERNEED record is about: the first direct dependency with its file name. */
  function NeedTarget(v: View, g: Graph, edges: seq<Edge>, t: StringTable, max: u32, head: u32): Option<nat> {
    match Read(v, head, 16)
    case None => None
    case Some(b) =>
      match ReadString(v, t, DecodeU32(b, 4), max)
      case Err(_) => None
      case Ok(file) => match DependencyFor(g, edges, file) case Found(target) => Some(target) case _ => None
  }

  /** A VERNEED record and its whole VERNAUX chain are in order. */
  predicate NeedGood(v: View, g: Graph, edges: seq<Edge>, t: StringTable, max: u32, head: u32) {
    match Read(v, head, 16)
    case None => false
    case Some(b) =>
      && DecodeU16(b, 0) == 1 && DecodeU16(b, 2) != 0 && DecodeU32(b, 8) != 0 && head + DecodeU32(b, 8) < ADDRESS_SPACE
      && NeedTarget(v, g, edges, t, max, head).Some?
      && |AuxOf(v, head)| == DecodeU16(b, 2) && AuxReadable(v, t, max, AuxOf(v, head))
  }

  predicate NeedsGood(v: View, g: Graph, edges: seq<Edge>, t: StringTable, max: u32, heads: seq<u32>) {
    heads == [] || (NeedGood(v, g, edges, t, max, heads[0]) && NeedsGood(v, g, edges, t, max, heads[1..]))
  }

  /** The candidates of one VERNEED record. */
  function NeedOf(v: View, g: Graph, edges: seq<Edge>, t: StringTable, max: u32, head: u32): seq<Candidate> {
    match NeedTarget(v, g, edges, t, max, head)
    case None => []
    case Some(target) => AuxCandidates(v, t, max, target, AuxOf(v, head))
  }

  /** The VERNAUX candidates of the VERNEED records at `heads`, in table order. */
  function NeedCandidates(v: View, g: Graph, edges: seq<Edge>, t: StringTable, max: u32, heads: seq<u32>): seq<Candidate> {
    if heads == [] then []
    else NeedOf(v, g, edges, t, max, heads[0]) + NeedCandidates(v, g, edges, t, max, heads[1..])
  }

  /** Every record address of the VERNEED records at `heads`, in table order. */
  function NeedRecords(v: View, heads: seq<u32>): seq<u32> {
    if heads == [] then [] else [heads[0]] + AuxOf(v, heads[0]) + NeedRecords(v, heads[1..])
  }

  /** The VERDAUX record a VERDEF record that is no base definition names itself by. */
  function DefAux(v: View, head: u32): Option<u32> {
    match Read(v, head, 20)
    case None => None
    case Some(b) =>
      if DecodeU16(b, 2) % 2 == 1 || DecodeU16(b, 6) == 0 || DecodeU32(b, 12) == 0 || head + DecodeU32(b, 12) >= ADDRESS_SPACE then None
      else Some(head + DecodeU32(b, 12))
  }

  /** The version a VERDEF record defines; none for a base definition. */
  function DefCandidate(v: View, t: StringTable, max: u32, owner: nat, head: u32): Option<Candidate> {
    match (Read(v, head, 20), DefAux(v, head))
    case (Some(b), Some(aux)) =>
      (match Read(v, aux, 8)
       case None => None
       case Some(a) =>
         match ReadString(v, t, DecodeU32(a, 0), max)
         case Err(_) => None
         case Ok(name) => Some(Candidate(DecodeU16(b, 4) % 0x8000, DecodeU32(b, 8), name, owner)))
    case _ => None
  }

  predicate DefGood(v: View, t: StringTable, max: u32, head: u32) {
    match Read(v, head, 20)
    case None => false
    case Some(b) => DecodeU16(b, 0) == 1 && (DecodeU16(b, 2) % 2 == 1 || DefCandidate(v, t, max, 0, head).Some?)
  }

  predicate DefsGood(v: View, t: StringTable, max: u32, heads: seq<u32>) {
    heads == [] || (DefGood(v, t, max, heads[0]) && DefsGood(v, t, max, heads[1..]))
  }

  /** The records of one VERDEF record. */
  function DefRecord(v: View, head: u32): seq<u32> {
    [head] + match DefAux(v, head) case None => [] case Some(aux) => [aux]
  }

  /** The candidates of one VERDEF record. */
  function DefOf(v: View, t: StringTable, max: u32, owner: nat, head: u32): seq<Candidate> {
    match DefCandidate(v, t, max, owner, head) case None => [] case Some(c) => [c]
  }

  /** The versions the VERDEF records at `heads` define, in table order. */
  function DefCandidates(v: View, t: StringTable, max: u32, owner: nat, heads: seq<u32>): seq<Candidate> {
    if heads == [] then []
    else DefOf(v, t, max, owner, heads[0]) + DefCandidates(v, t, max, owner, heads[1..])
  }

  function DefRecords(v: View, heads: seq<u32>): seq<u32> {
    if heads == [] then []
    else DefRecord(v, heads[0]) + DefRecords(v, heads[1..])
  }

  /** The last wanted candidate of a list. */
  function LastWanted(want: Want, list: seq<Candidate>): Option<Candidate> {
    if list == [] then None
    else if Wanted(want, list[|list| - 1]) then Some(list[|list| - 1])
    else LastWanted(want, list[..|list| - 1])
  }

  /** The same, with a fallback. */
  function LastOr(want: Want, list: seq<Candidate>, otherwise: Option<Candidate>): Option<Candidate> {
    if LastWanted(want, list).Some? then LastWanted(want, list) else otherwise
  }

  /** In a concatenation the later list wins, the earlier one is the fallback. */
  lemma {:induction false} LastWantedConcat(want: Want, xs: seq<Candidate>, ys: seq<Candidate>)
    ensures LastWanted(want, xs + ys) == LastOr(want, ys, LastWanted(want, xs))
  {
    if ys == [] {
      assert xs + ys == xs;
    } else {
      assert (xs + ys)[..|xs + ys| - 1] == xs + ys[..|ys| - 1];
      LastWantedConcat(want, xs, ys[..|ys| - 1]);
    }
  }

  lemma {:induction false} LastOrConcat(want: Want, xs: seq<Candidate>, ys: seq<Candidate>, otherwise: Option<Candidate>)
    ensures LastOr(want, xs + ys, otherwise) == LastOr(want, ys, LastOr(want, xs, otherwise))
  {
    hide LastWanted;
    LastWantedConcat(want, xs, ys);
  }

  lemma {:induction false} LastOrOne(want: Want, c: Candidate, otherwise: Option<Candidate>)
    ensures LastOr(want, [c], otherwise) == if Wanted(want, c) then Some(c) else otherwise
    ensures LastOr(want, [], otherwise) == otherwise
  {
    var one := [c];
    assert one[|one| - 1] == c && one[..|one| - 1] == [];
    assert LastWanted(want, []) == None;
  }

  // --------------------------------------------------------------------- chains increase

  lemma {:induction false} IncreasingCons(a: u32, rest: seq<u32>)
    requires Increasing(rest) && (rest != [] ==> a < rest[0])
    ensures Increasing([a] + rest)
  {
    var all := [a] + rest;
    forall i, j | 0 <= i < j < |all| ensures all[i] < all[j] {
      if i > 0 { assert all[i] == rest[i - 1]; }
      if j > 1 && i == 0 { assert rest[0] < rest[j - 1]; }
    }
  }

  /** Whatever the bytes, a chain has at most the given number of records, at strictly increasing
      addresses. */
  lemma {:induction false} ChainIncreases(v: View, size: nat, at: nat, address: u32, left: nat)
    requires at + 4 <= size
    ensures var c := Chain(v, size, at, address, left); |c| <= left && Increasing(c) && (left > 0 ==> |c| > 0 && c[0] == address)
    decreases left
  {
    hide Read, DecodeU32;
    if left > 1 {
      match NextRecord(v, size, at, address)
      case None =>
      case Some(next) =>
        ChainIncreases(v, size, at, next, left - 1);
        IncreasingCons(address, Chain(v, size, at, next, left - 1));
    }
  }

  // -------------------------------------------------------------------- walks and tables

  /** `r` goes on from `w`: it reads a part of `records` from the front, each within the budget. */
  ghost predicate Reads(limits: Limits, w: Walk, r: Walk, records: seq<u32>) {
    && w.visited <= r.visited <= w.visited + records
    && |r.visited| - |w.visited| <= r.used - w.used && (r.used <= limits.records || r.used == w.used)
  }

  /** `r` has read all of `records` and found the last wanted of `list`. */
  ghost predicate Completes(want: Want, w: Walk, r: Walk, records: seq<u32>, list: seq<Candidate>) {
    && r.stop.None? && r.visited == w.visited + records && r.used == w.used + |records|
    && r.found == LastOr(want, list, w.found)
  }

  lemma {:induction false} ReadsTransitive(limits: Limits, w: Walk, m: Walk, r: Walk, xs: seq<u32>, ys: seq<u32>)
    requires Reads(limits, w, m, xs) && m.visited == w.visited + xs && Reads(limits, m, r, ys)
    ensures Reads(limits, w, r, xs + ys)
  {
    assert w.visited + xs + ys == w.visited + (xs + ys);
  }

  lemma {:induction false} CompletesTransitive(want: Want, w: Walk, m: Walk, r: Walk, xs: seq<u32>, ys: seq<u32>, cs: seq<Candidate>,
                                               ds: seq<Candidate>)
    requires Completes(want, w, m, xs, cs) && Completes(want, m, r, ys, ds)
    ensures Completes(want, w, r, xs + ys, cs + ds)
  {
    hide LastOr;
    LastOrConcat(want, cs, ds, w.found);
    assert w.visited + xs + ys == w.visited + (xs + ys);
  }

  /** Nothing read, nothing found. */
  lemma {:induction false} ReadsNothing(limits: Limits, want: Want, w: Walk, records: seq<u32>)
    requires w.stop.None?
    ensures Reads(limits, w, w, records) && Completes(want, w, w, [], [])
    ensures forall e :: Reads(limits, w, Stop(w, e), records)
  {
    LastOrOne(want, Candidate(0, 0, [], 0), w.found);
    assert w.visited + [] == w.visited;
  }

  /** One record read. */
  lemma {:induction false} ReadsOne(limits: Limits, w: Walk, address: u32, rest: seq<u32>)
    requires w.used < limits.records
    ensures Reads(limits, w, Visit(w, address), [address] + rest)
    ensures forall e :: Reads(limits, w, Stop(Visit(w, address), e), [address] + rest)
    ensures forall want, c :: Reads(limits, w, See(Visit(w, address), want, c), [address] + rest)
    ensures forall want, c, e :: Reads(limits, w, Stop(See(Visit(w, address), want, c), e), [address] + rest)
  {
    assert w.visited + ([address] + rest) == w.visited + [address] + rest;
  }

  lemma {:induction false} SeesOne(limits: Limits, want: Want, w: Walk, address: u32, c: Candidate)
    requires w.stop.None? && w.used < limits.records
    ensures Completes(want, w, See(Visit(w, address), want, c), [address], [c])
  {
    LastOrOne(want, c, w.found);
  }

  /** A chain of several records is its first and the rest. */
  lemma {:induction false} ChainStep(v: View, size: nat, at: nat, address: u32, left: nat) returns (rest: seq<u32>)
    requires at + 4 <= size && left > 0
    ensures Chain(v, size, at, address, left) == [address] + rest && Chain(v, size, at, address, left)[1..] == rest
    ensures left == 1 || NextRecord(v, size, at, address).None? ==> rest == []
    ensures left > 1 && NextRecord(v, size, at, address).Some? ==>
              rest == Chain(v, size, at, NextRecord(v, size, at, address).value, left - 1)
  {
    hide NextRecord;
    rest := match NextRecord(v, size, at, address)
            case None => []
            case Some(next) => if left == 1 then [] else Chain(v, size, at, next, left - 1);
    assert ([address] + rest)[1..] == rest;
  }

  /** The walk of a VERNAUX chain succeeds exactly if the chain is complete, readable and within the
      budget; then it has read the chain and found its last wanted candidate. */
  lemma {:induction false} WalkAuxMeaning(v: View, t: StringTable, limits: Limits, want: Want, target: nat, address: u32, left: nat, w: Walk)
    requires w.stop.None?
    ensures var r := WalkAux(v, t, limits, want, target, address, left, w);
            var chain := NeedChain(v, address, left);
            && Reads(limits, w, r, chain)
            && (r.stop.None? <==> |chain| == left && AuxReadable(v, t, limits.nameBytes, chain) && (left == 0 || w.used + left <= limits.records))
            && (r.stop.None? ==> Completes(want, w, r, chain, AuxCandidates(v, t, limits.nameBytes, target, chain)))
    decreases left
  {
    hide Read, DecodeU16, DecodeU32, ReadString, Chain, Reads, Completes;
    if left == 0 {
      NoChain(v, address);
      ReadsNothing(limits, want, w, []);
      return;
    }
    var rest := ChainStep(v, 16, 12, address, left);
    var chain := [address] + rest;
    if w.used >= limits.records {
      ReadsNothing(limits, want, w, chain);
      return;
    }
    ReadsOne(limits, w, address, rest);
    var candidate := AuxCandidate(v, t, limits.nameBytes, target, address);
    if candidate.None? {
      return;
    }
    var w2 := See(Visit(w, address), want, candidate.value);
    SeesOne(limits, want, w, address, candidate.value);
    if left == 1 {
      assert chain == [address] && NeedChain(v, address, left) == [address];
      assert AuxCandidates(v, t, limits.nameBytes, target, chain) == [candidate.value] + AuxCandidates(v, t, limits.nameBytes, target, rest);
      assert [candidate.value] + [] == [candidate.value];
      return;
    }
    var next := NextRecord(v, 16, 12, address);
    if next.None? {
      return;
    }
    WalkAuxMeaning(v, t, limits, want, target, next.value, left - 1, w2);
    ReadsOne(limits, w, address, []);
    assert [address] + [] == [address];
    var r := WalkAux(v, t, limits, want, target, next.value, left - 1, w2);
    ReadsTransitive(limits, w, w2, r, [address], rest);
    if r.stop.None? {
      CompletesTransitive(want, w, w2, r, [address], rest, [candidate.value], AuxCandidates(v, t, limits.nameBytes, target, rest));
    }
  }

  lemma {:induction false} NoChain(v: View, address: u32)
    ensures NeedChain(v, address, 0) == [] && DefChain(v, address, 0) == []
  {
  }

  lemma {:induction false} WalkNeedMeaning(v: View, g: Graph, edges: seq<Edge>, t: StringTable, limits: Limits, want: Want, head: u32,
                                           w: Walk)
    requires w.stop.None?
    ensures var r := WalkNeed(v, g, edges, t, limits, want, head, w);
            var records := [head] + AuxOf(v, head);
            && Reads(limits, w, r, records)
            && (r.stop.None? <==> NeedGood(v, g, edges, t, limits.nameBytes, head) && w.used + |records| <= limits.records)
            && (r.stop.None? ==> Completes(want, w, r, records, NeedOf(v, g, edges, t, limits.nameBytes, head)))
  {
    hide Read, DecodeU16, DecodeU32, ReadString, Reads, Completes, NeedChain, AuxReadable, AuxCandidates, DependencyFor, WalkAux;
    var aux := AuxOf(v, head);
    if w.used >= limits.records {
      ReadsNothing(limits, want, w, [head] + aux);
      return;
    }
    ReadsOne(limits, w, head, aux);
    var record := Read(v, head, 16);
    if record.None? {
      return;
    }
    var b := record.value;
    var target := NeedTarget(v, g, edges, t, limits.nameBytes, head);
    if DecodeU16(b, 0) != 1 || DecodeU16(b, 2) == 0 || DecodeU32(b, 8) == 0 || target.None? || head + DecodeU32(b, 8) >= ADDRESS_SPACE {
      return;
    }
    var w1 := Visit(w, head);
    var r := WalkAux(v, t, limits, want, target.value, head + DecodeU32(b, 8), DecodeU16(b, 2), w1);
    WalkAuxMeaning(v, t, limits, want, target.value, head + DecodeU32(b, 8), DecodeU16(b, 2), w1);
    ReadsOne(limits, w, head, []);
    assert [head] + [] == [head];
    ReadsTransitive(limits, w, w1, r, [head], aux);
    if r.stop.None? {
      VisitedOne(limits, want, w, head);
      CompletesTransitive(want, w, w1, r, [head], aux, [], AuxCandidates(v, t, limits.nameBytes, target.value, aux));
      assert [] + AuxCandidates(v, t, limits.nameBytes, target.value, aux) == AuxCandidates(v, t, limits.nameBytes, target.value, aux);
    }
  }

  lemma {:induction false} VisitedOne(limits: Limits, want: Want, w: Walk, address: u32)
    requires w.stop.None?
    ensures Completes(want, w, Visit(w, address), [address], [])
  {
    LastOrOne(want, Candidate(0, 0, [], 0), w.found);
  }

  /** The walk of a VERNEED table succeeds exactly if all its records are in order and within the
      budget; then it has read them all and found the last wanted VERNAUX candidate. */
  lemma {:induction false} WalkNeedsMeaning(v: View, g: Graph, edges: seq<Edge>, t: StringTable, limits: Limits, want: Want, address: u32,
                                            left: nat, w: Walk)
    requires w.stop.None?
    ensures var r := WalkNeeds(v, g, edges, t, limits, want, address, left, w);
            var heads := NeedChain(v, address, left);
            && Reads(limits, w, r, NeedRecords(v, heads))
            && (r.stop.None? <==> && |heads| == left && NeedsGood(v, g, edges, t, limits.nameBytes, heads)
                                  && (left == 0 || w.used + |NeedRecords(v, heads)| <= limits.records))
            && (r.stop.None? ==> Completes(want, w, r, NeedRecords(v, heads), NeedCandidates(v, g, edges, t, limits.nameBytes, heads)))
    decreases left
  {
    hide Read, Chain, Reads, Completes, WalkNeed, AuxOf, NeedGood, NeedTarget, NextRecord, NeedOf;
    if left == 0 {
      NoChain(v, address);
      ReadsNothing(limits, want, w, []);
      return;
    }
    var rest := ChainStep(v, 16, 12, address, left);
    var heads := [address] + rest;
    var mine, more := [address] + AuxOf(v, address), NeedRecords(v, rest);
    assert NeedRecords(v, heads) == mine + more;
    NeedOfFirst(v, g, edges, t, limits.nameBytes, address, rest);
    WalkNeedMeaning(v, g, edges, t, limits, want, address, w);
    var w2 := WalkNeed(v, g, edges, t, limits, want, address, w);
    ReadsMore(limits, w, w2, mine, more);
    var next := NextRecord(v, 16, 12, address);
    if w2.stop.Some? {
      return;
    }
    if left == 1 || next.None? {
      assert more == [] && mine + more == mine;
      assert NeedOf(v, g, edges, t, limits.nameBytes, address) + [] == NeedOf(v, g, edges, t, limits.nameBytes, address);
      return;
    }
    CompletesUsed(want, w, w2, mine, NeedOf(v, g, edges, t, limits.nameBytes, address));
    WalkNeedsMeaning(v, g, edges, t, limits, want, next.value, left - 1, w2);
    var r := WalkNeeds(v, g, edges, t, limits, want, next.value, left - 1, w2);
    ReadsTransitive(limits, w, w2, r, mine, more);
    if r.stop.None? {
      CompletesTransitive(want, w, w2, r, mine, more, NeedOf(v, g, edges, t, limits.nameBytes, address),
                          NeedCandidates(v, g, edges, t, limits.nameBytes, rest));
    }
  }

  lemma {:induction false} NeedOfFirst(v: View, g: Graph, edges: seq<Edge>, t: StringTable, max: u32, address: u32, rest: seq<u32>)
    ensures var heads := [address] + rest;
            && NeedCandidates(v, g, edges, t, max, heads) == NeedOf(v, g, edges, t, max, address) + NeedCandidates(v, g, edges, t, max, rest)
            && (NeedsGood(v, g, edges, t, max, heads) <==> NeedGood(v, g, edges, t, max, address) && NeedsGood(v, g, edges, t, max, rest))
  {
    hide NeedGood, NeedTarget, AuxOf;
    assert ([address] + rest)[1..] == rest;
  }

  lemma {:induction false} ReadsMore(limits: Limits, w: Walk, r: Walk, records: seq<u32>, more: seq<u32>)
    requires Reads(limits, w, r, records)
    ensures Reads(limits, w, r, records + more)
    ensures forall e :: Reads(limits, w, Stop(r, e), records + more)
  {
    assert w.visited + (records + more) == w.visited + records + more;
  }

  lemma {:induction false} CompletesUsed(want: Want, w: Walk, r: Walk, records: seq<u32>, list: seq<Candidate>)
    requires Completes(want, w, r, records, list)
    ensures r.used == w.used + |records| && r.visited == w.visited + records
  {
    hide LastOr;
  }

  lemma {:induction false} WalkDefRecordMeaning(v: View, t: StringTable, limits: Limits, want: Want, owner: nat, head: u32, w: Walk)
    requires w.stop.None?
    ensures var r := WalkDefRecord(v, t, limits, want, owner, head, w);
            && Reads(limits, w, r, DefRecord(v, head))
            && (r.stop.None? <==> DefGood(v, t, limits.nameBytes, head) && w.used + |DefRecord(v, head)| <= limits.records)
            && (r.stop.None? ==> Completes(want, w, r, DefRecord(v, head), DefOf(v, t, limits.nameBytes, owner, head)))
  {
    hide Read, DecodeU16, DecodeU32, ReadString, Completes, Reads, LastOr;
    var records := DefRecord(v, head);
    if w.used >= limits.records {
      ReadsNothing(limits, want, w, records);
      return;
    }
    var w1 := Visit(w, head);
    ReadsOne(limits, w, head, records[1..]);
    assert [head] + records[1..] == records;
    VisitedOne(limits, want, w, head);
    var record := Read(v, head, 20);
    if record.None? || DecodeU16(record.value, 0) != 1 {
      return;
    }
    var aux := DefAux(v, head);
    if aux.None? {
      ReadsSpent(limits, w, w1, records);
      assert records == [head] && DefOf(v, t, limits.nameBytes, owner, head) == [];
      return;
    }
    if w1.used >= limits.records {
      return;
    }
    DefAuxMeaning(v, t, limits, want, owner, head, w);
  }

  /** The budget may be taken for a record that is then not read. */
  lemma {:induction false} ReadsSpent(limits: Limits, w: Walk, r: Walk, records: seq<u32>)
    requires Reads(limits, w, r, records)
    ensures r.used < limits.records ==> Reads(limits, w, Stop(r.(used := r.used + 1), InvalidRecord), records)
  {
  }

  lemma {:induction false} DefAuxMeaning(v: View, t: StringTable, limits: Limits, want: Want, owner: nat, head: u32, w: Walk)
    requires w.stop.None? && w.used + 1 < limits.records && Read(v, head, 20).Some? && DecodeU16(Read(v, head, 20).value, 0) == 1
    requires DefAux(v, head).Some?
    ensures var r := WalkDefRecord(v, t, limits, want, owner, head, w);
            && Reads(limits, w, r, DefRecord(v, head))
            && (r.stop.None? <==> DefGood(v, t, limits.nameBytes, head))
            && (r.stop.None? ==> Completes(want, w, r, DefRecord(v, head), DefOf(v, t, limits.nameBytes, owner, head)))
  {
    hide Read, DecodeU16, DecodeU32, ReadString, Completes, Reads, LastOr;
    var aux := DefAux(v, head).value;
    var w1 := Visit(w, head);
    var w2 := Visit(w1, aux);
    VisitedOne(limits, want, w, head);
    ReadsOne(limits, w, head, []);
    ReadsOne(limits, w1, aux, []);
    assert [head] + [] == [head] && [aux] + [] == [aux];
    var candidate := DefCandidate(v, t, limits.nameBytes, owner, head);
    var r := WalkDefRecord(v, t, limits, want, owner, head, w);
    ReadsTransitive(limits, w, w1, r, [head], [aux]);
    if candidate.Some? {
      SeesOne(limits, want, w1, aux, candidate.value);
      CompletesTransitive(want, w, w1, See(w2, want, candidate.value), [head], [aux], [], [candidate.value]);
      assert [] + [candidate.value] == [candidate.value];
    }
  }

  /** The walk of a VERDEF table succeeds exactly if all its records are in order and within the
      budget; then it has read them all and found the last wanted definition. */
  lemma {:induction false} WalkDefsMeaning(v: View, t: StringTable, limits: Limits, want: Want, owner: nat, address: u32, left: nat, w: Walk)
    requires w.stop.None?
    ensures var r := WalkDefs(v, t, limits, want, owner, address, left, w);
            var heads := DefChain(v, address, left);
            && Reads(limits, w, r, DefRecords(v, heads))
            && (r.stop.None? <==> && |heads| == left && DefsGood(v, t, limits.nameBytes, heads)
                                  && (left == 0 || w.used + |DefRecords(v, heads)| <= limits.records))
            && (r.stop.None? ==> Completes(want, w, r, DefRecords(v, heads), DefCandidates(v, t, limits.nameBytes, owner, heads)))
    decreases left
  {
    hide Read, Chain, Reads, Completes, WalkDefRecord, DefGood, DefCandidate, DefAux, NextRecord;
    if left == 0 {
      NoChain(v, address);
      ReadsNothing(limits, want, w, []);
      return;
    }
    var rest := ChainStep(v, 20, 16, address, left);
    var heads := [address] + rest;
    var mine, more := DefRecord(v, address), DefRecords(v, rest);
    var found := DefOf(v, t, limits.nameBytes, owner, address);
    assert DefRecords(v, heads) == mine + more;
    assert DefCandidates(v, t, limits.nameBytes, owner, heads) == found + DefCandidates(v, t, limits.nameBytes, owner, rest);
    WalkDefRecordMeaning(v, t, limits, want, owner, address, w);
    var w2 := WalkDefRecord(v, t, limits, want, owner, address, w);
    ReadsMore(limits, w, w2, mine, more);
    var next := NextRecord(v, 20, 16, address);
    if w2.stop.Some? {
      return;
    }
    if left == 1 || next.None? {
      assert more == [] && mine + more == mine && found + [] == found;
      return;
    }
    CompletesUsed(want, w, w2, mine, found);
    WalkDefsMeaning(v, t, limits, want, owner, next.value, left - 1, w2);
    var r := WalkDefs(v, t, limits, want, owner, next.value, left - 1, w2);
    ReadsTransitive(limits, w, w2, r, mine, more);
    if r.stop.None? {
      CompletesTransitive(want, w, w2, r, mine, more, found, DefCandidates(v, t, limits.nameBytes, owner, rest));
    }
  }

  // ------------------------------------------------------------ what the entry points answer

  /** The VERNEED records of an object, as far as their chain leads. */
  function NeedHeads(v: View, m: Metadata): seq<u32> {
    if m.verneed.None? then [] else NeedChain(v, m.verneed.value.guest, m.verneed.value.count)
  }

  function DefHeads(v: View, m: Metadata): seq<u32> {
    if m.verdef.None? then [] else DefChain(v, m.verdef.value.guest, m.verdef.value.count)
  }

  /** Every record of both tables, in the order of the tables. */
  function Records(v: View, m: Metadata): seq<u32> { NeedRecords(v, NeedHeads(v, m)) + DefRecords(v, DefHeads(v, m)) }

  predicate NeedTableGood(v: View, g: Graph, edges: seq<Edge>, m: Metadata, t: StringTable, max: u32) {
    m.verneed.None? || (|NeedHeads(v, m)| == m.verneed.value.count && NeedsGood(v, g, edges, t, max, NeedHeads(v, m)))
  }

  predicate DefTableGood(v: View, m: Metadata, t: StringTable, max: u32) {
    m.verdef.None? || (|DefHeads(v, m)| == m.verdef.value.count && DefsGood(v, t, max, DefHeads(v, m)))
  }

  /** Both tables have as many records as they announce, all in order, and no more than the budget. */
  predicate Walkable(v: View, g: Graph, requester: nat, t: StringTable, limits: Limits)
    requires requester < |g|
  {
    var o := g[requester];
    && NeedTableGood(v, g, o.dependencies, o.metadata, t, limits.nameBytes) && DefTableGood(v, o.metadata, t, limits.nameBytes)
    && |Records(v, o.metadata)| <= limits.records
  }

  /** The last wanted version definition, and without one the last wanted version need. */
  function Chosen(v: View, g: Graph, requester: nat, t: StringTable, max: u32, want: Want): Option<Candidate>
    requires requester < |g|
  {
    var o := g[requester];
    LastOr(want, DefCandidates(v, t, max, requester, DefHeads(v, o.metadata)),
           LastWanted(want, NeedCandidates(v, g, o.dependencies, t, max, NeedHeads(v, o.metadata))))
  }

  /** What "last wanted" says: it is on the list, it is wanted, and nothing wanted comes after it. */
  ghost predicate IsLastWanted(want: Want, list: seq<Candidate>, c: Candidate) {
    exists k :: 0 <= k < |list| && list[k] == c && Wanted(want, c) && forall j :: k < j < |list| ==> !Wanted(want, list[j])
  }

  lemma {:induction false} LastWantedMeaning(want: Want, list: seq<Candidate>)
    ensures match LastWanted(want, list)
            case Some(c) => IsLastWanted(want, list, c)
            case None => forall k :: 0 <= k < |list| ==> !Wanted(want, list[k])
  {
    if list == [] || Wanted(want, list[|list| - 1]) {
      return;
    }
    var front := list[..|list| - 1];
    LastWantedMeaning(want, front);
    if LastWanted(want, front).Some? {
      var c := LastWanted(want, front).value;
      var k :| 0 <= k < |front| && front[k] == c && Wanted(want, c) && forall j :: k < j < |front| ==> !Wanted(want, front[j]);
      assert list[k] == c;
      forall j | k < j < |list| ensures !Wanted(want, list[j]) {
        if j < |front| { assert front[j] == list[j]; }
      }
    } else {
      forall j | 0 <= j < |list| ensures !Wanted(want, list[j]) {
        if j < |front| { assert front[j] == list[j]; }
      }
    }
  }

  lemma {:induction false} NeedPart(v: View, g: Graph, requester: nat, t: StringTable, limits: Limits, want: Want) returns (w: Walk)
    requires requester < |g|
    ensures var m := g[requester].metadata;
            var records := NeedRecords(v, NeedHeads(v, m));
            && w == (if m.verneed.None? then EMPTY_WALK
                     else WalkNeeds(v, g, g[requester].dependencies, t, limits, want, m.verneed.value.guest, m.verneed.value.count, EMPTY_WALK))
            && Reads(limits, EMPTY_WALK, w, records)
            && (w.stop.None? <==> NeedTableGood(v, g, g[requester].dependencies, m, t, limits.nameBytes) && |records| <= limits.records)
            && (w.stop.None? ==> Completes(want, EMPTY_WALK, w, records,
                                           NeedCandidates(v, g, g[requester].dependencies, t, limits.nameBytes, NeedHeads(v, m))))
  {
    hide WalkNeeds, NeedsGood, Reads, Completes, Chain;
    var m := g[requester].metadata;
    if m.verneed.None? {
      ReadsNothing(limits, want, EMPTY_WALK, []);
      return EMPTY_WALK;
    }
    NoChain(v, m.verneed.value.guest);
    WalkNeedsMeaning(v, g, g[requester].dependencies, t, limits, want, m.verneed.value.guest, m.verneed.value.count, EMPTY_WALK);
    return WalkNeeds(v, g, g[requester].dependencies, t, limits, want, m.verneed.value.guest, m.verneed.value.count, EMPTY_WALK);
  }

  lemma {:induction false} DefPart(v: View, m: Metadata, owner: nat, t: StringTable, limits: Limits, want: Want, w: Walk) returns (r: Walk)
    requires w.stop.None? && w.used <= limits.records
    ensures var records := DefRecords(v, DefHeads(v, m));
            && r == (if m.verdef.None? then w
                     else WalkDefs(v, t, limits, want, owner, m.verdef.value.guest, m.verdef.value.count, w))
            && Reads(limits, w, r, records)
            && (r.stop.None? <==> DefTableGood(v, m, t, limits.nameBytes) && w.used + |records| <= limits.records)
            && (r.stop.None? ==> Completes(want, w, r, records, DefCandidates(v, t, limits.nameBytes, owner, DefHeads(v, m))))
  {
    hide WalkDefs, DefsGood, Reads, Completes, Chain;
    if m.verdef.None? {
      ReadsNothing(limits, want, w, []);
      return w;
    }
    NoChain(v, m.verdef.value.guest);
    WalkDefsMeaning(v, t, limits, want, owner, m.verdef.value.guest, m.verdef.value.count, w);
    return WalkDefs(v, t, limits, want, owner, m.verdef.value.guest, m.verdef.value.count, w);
  }

  /** What a walk from the start has read and found. */
  lemma {:induction false} FromStart(limits: Limits, want: Want, r: Walk, records: seq<u32>, needs: seq<Candidate>, defs: seq<Candidate>)
    requires Reads(limits, EMPTY_WALK, r, records)
    ensures r.visited <= records && |r.visited| <= limits.records
    ensures Completes(want, EMPTY_WALK, r, records, needs + defs)
            ==> r.visited == records && r.used == |records| && r.found == LastOr(want, defs, LastWanted(want, needs))
  {
    hide LastWanted;
    assert [] + records == records;
    LastOrConcat(want, needs, defs, None);
  }

  /** For arbitrary table bytes: the walk reads records of the tables only, in their order, at most
      as many as the budget allows; it succeeds exactly on tables in order and within the budget,
      and then it has read every record and found the chosen candidate. */
  lemma {:induction false} RequirementWalk(v: View, g: Graph, requester: nat, t: StringTable, limits: Limits, want: Want)
    requires requester < |g|
    ensures var w := WalkRequirement(v, g, requester, t, limits, want);
            && w.visited <= Records(v, g[requester].metadata) && |w.visited| <= limits.records
            && (w.stop.None? <==> Walkable(v, g, requester, t, limits))
            && (w.stop.None? ==> && w.visited == Records(v, g[requester].metadata)
                                 && w.found == Chosen(v, g, requester, t, limits.nameBytes, want))
  {
    hide WalkNeeds, WalkDefs, NeedTableGood, DefTableGood, NeedHeads, DefHeads, NeedCandidates, DefCandidates, NeedRecords, DefRecords, LastOr,
      LastWanted, Reads, Completes;
    var m := g[requester].metadata;
    var needs, defs := NeedRecords(v, NeedHeads(v, m)), DefRecords(v, DefHeads(v, m));
    var wanted := NeedCandidates(v, g, g[requester].dependencies, t, limits.nameBytes, NeedHeads(v, m));
    var offered := DefCandidates(v, t, limits.nameBytes, requester, DefHeads(v, m));
    var w := NeedPart(v, g, requester, t, limits, want);
    ReadsMore(limits, EMPTY_WALK, w, needs, defs);
    FromStart(limits, want, w, needs + defs, wanted, offered);
    if w.stop.Some? {
      return;
    }
    CompletesUsed(want, EMPTY_WALK, w, needs, wanted);
    var r := DefPart(v, m, requester, t, limits, want, w);
    assert [] + needs == needs;
    ReadsTransitive(limits, EMPTY_WALK, w, r, needs, defs);
    if r.stop.None? {
      CompletesTransitive(want, EMPTY_WALK, w, r, needs, defs, wanted, offered);
    }
    FromStart(limits, want, r, needs + defs, wanted, offered);
  }

  /** The version index of a symbol, when it asks for a version. */
  function VersionIndex(v: View, m: Metadata, symbol: u32): Option<u16> {
    if m.versym.None? then None
    else match ReadVersym(v, m.versym.value, symbol)
         case None => None
         case Some(raw) => if raw % 0x8000 <= 1 then None else Some(raw % 0x8000)
  }

  /** A requirement is answered exactly when the symbol has a version index, both tables are in order
      and within the budget, and some record has the index: it is the last such VERDEF record, and
      without one the last such VERNAUX record. */
  lemma {:induction false} RequirementMeaning(v: View, g: Graph, requester: nat, symbol: u32, limits: Limits, q: Requirement)
    requires requester < |g|
    ensures var m := g[requester].metadata;
            RequirementOf(v, g, requester, symbol, limits) == Ok(Some(q)) <==>
              && VersionIndex(v, m, symbol).Some? && limits.records > 0 && limits.nameBytes > 0 && m.stringTable.Some?
              && Walkable(v, g, requester, m.stringTable.value, limits)
              && match Chosen(v, g, requester, m.stringTable.value, limits.nameBytes, ByIndex(VersionIndex(v, m, symbol).value))
                 case None => false
                 case Some(c) => q == Requirement(c.hash, c.name, c.target)
  {
    hide WalkRequirement, Walkable, Chosen, ReadVersym;
    var m := g[requester].metadata;
    if VersionIndex(v, m, symbol).Some? && m.stringTable.Some? {
      RequirementWalk(v, g, requester, m.stringTable.value, limits, ByIndex(VersionIndex(v, m, symbol).value));
    }
  }

  /** The version entry of a symbol: the two bytes at the table plus twice its index. */
  predicate VersymAt(v: View, table: u32, symbol: u32, x: int) {
    var a := table + 2 * symbol;
    Readable(v, a, 2) && x == v[a] as int + 0x100 * v[a + 1] as int
  }

  lemma {:induction false} VersymExact(v: View, table: u32, symbol: u32, x: u16)
    ensures ReadVersym(v, table, symbol) == Some(x) <==> VersymAt(v, table, symbol, x)
  {
    var a := table + 2 * symbol;
    if a >= ADDRESS_SPACE {
      assert a !in v;
      return;
    }
    if Readable(v, a, 2) {
      assert Bytes(v, a, 2)[0] == v[a] && Bytes(v, a, 2)[1] == v[a + 1];
    }
  }

  /** No requirement is returned exactly when the object has no version entries, or the symbol's entry
      is local or global. */
  lemma {:induction false} RequirementAbsent(v: View, g: Graph, requester: nat, symbol: u32, limits: Limits)
    requires requester < |g|
    ensures var m := g[requester].metadata;
            RequirementOf(v, g, requester, symbol, limits) == Ok(None) <==>
              && (m.versym.None? ==> m.hasVersioning ==> m.verdef.Some? || m.verneed.Some?)
              && (m.versym.Some? ==> exists x: u16 :: VersymAt(v, m.versym.value, symbol, x) && x % 0x8000 <= 1)
  {
    hide WalkRequirement, VersymAt, ReadVersym;
    var m := g[requester].metadata;
    if m.versym.Some? {
      forall x: u16 ensures ReadVersym(v, m.versym.value, symbol) == Some(x) <==> VersymAt(v, m.versym.value, symbol, x) {
        VersymExact(v, m.versym.value, symbol, x);
      }
    }
  }

  /** The index a candidate must have: that of the last definition with the name and hash, and without
      one the global index. */
  function ExpectedIndex(v: View, m: Metadata, q: Requirement, max: u32): int
    requires m.stringTable.Some?
  {
    match LastWanted(ByName(q.hash, q.name), DefCandidates(v, m.stringTable.value, max, 0, DefHeads(v, m)))
    case Some(c) => c.index
    case None => 1
  }

  /** With a version entry `x`, the answer: without a requirement, any entry that is not hidden; with one,
      an object without definitions answers for the global index only; with definitions, the expected
      index, provided the VERDEF table is in order and within the budget. */
  ghost predicate MatchFrom(v: View, m: Metadata, x: int, requirement: Option<Requirement>, limits: Limits, b: bool) {
    if requirement.None? then b == (x < 0x8000)
    else if m.verdef.None? then b == (x % 0x8000 == 1)
    else && limits.records > 0 && limits.nameBytes > 0 && m.stringTable.Some?
         && DefTableGood(v, m, m.stringTable.value, limits.nameBytes) && |DefRecords(v, DefHeads(v, m))| <= limits.records
         && b == (x % 0x8000 == ExpectedIndex(v, m, requirement.value, limits.nameBytes))
  }

  /** Exactly when a candidate matches, does not match, or cannot be told. */
  lemma {:induction false} MatchMeaning(v: View, m: Metadata, symbol: u32, requirement: Option<Requirement>, limits: Limits, b: bool)
    ensures MatchVersion(v, m, symbol, requirement, limits) == Ok(b) <==>
              if m.versym.None? then b && (m.hasVersioning ==> m.verdef.Some? || m.verneed.Some?)
              else exists x: u16 :: VersymAt(v, m.versym.value, symbol, x) && MatchFrom(v, m, x, requirement, limits, b)
  {
    hide WalkDefs, DefTableGood, DefHeads, DefCandidates, DefRecords, LastWanted, Reads, ReadVersym, VersymAt;
    if m.versym.None? {
      return;
    }
    forall x: u16 ensures ReadVersym(v, m.versym.value, symbol) == Some(x) <==> VersymAt(v, m.versym.value, symbol, x) {
      VersymExact(v, m.versym.value, symbol, x);
    }
    if requirement.Some? && m.verdef.Some? && m.stringTable.Some? {
      var q := requirement.value;
      var r := DefPart(v, m, 0, m.stringTable.value, limits, ByName(q.hash, q.name), EMPTY_WALK);
    }
  }

  /** Whatever the bytes: the VERNEED chain, the VERDEF chain and the VERNAUX chain of every VERNEED
      record run through strictly increasing addresses, and tables within the budget have every
      chain within it. */
  lemma {:induction false} ChainsIncrease(v: View, m: Metadata, head: u32)
    ensures Increasing(NeedHeads(v, m)) && Increasing(DefHeads(v, m)) && Increasing(AuxOf(v, head))
    ensures |NeedHeads(v, m)| + |DefHeads(v, m)| <= |Records(v, m)|
    ensures head in NeedHeads(v, m) ==> |AuxOf(v, head)| < |Records(v, m)|
  {
    hide Read, DecodeU32, DecodeU16, Chain, NeedRecords, DefRecords;
    if m.verneed.Some? {
      ChainIncreases(v, 16, 12, m.verneed.value.guest, m.verneed.value.count);
    }
    if m.verdef.Some? {
      ChainIncreases(v, 20, 16, m.verdef.value.guest, m.verdef.value.count);
    }
    var record := Read(v, head, 16);
    if record.Some? {
      var b := record.value;
      if head + DecodeU32(b, 8) < ADDRESS_SPACE {
        ChainIncreases(v, 16, 12, head + DecodeU32(b, 8), DecodeU16(b, 2));
      }
    }
    NeedRecordsCover(v, NeedHeads(v, m), head);
    DefRecordsCover(v, DefHeads(v, m));
  }

  lemma {:induction false} NeedRecordsCover(v: View, heads: seq<u32>, head: u32)
    ensures |heads| <= |NeedRecords(v, heads)|
    ensures head in heads ==> |AuxOf(v, head)| < |NeedRecords(v, heads)|
  {
    hide AuxOf;
    if heads != [] {
      NeedRecordsCover(v, heads[1..], head);
    }
  }

  lemma {:induction false} DefRecordsCover(v: View, heads: seq<u32>)
    ensures |heads| <= |DefRecords(v, heads)|
  {
    hide DefAux;
    if heads != [] {
      DefRecordsCover(v, heads[1..]);
    }
  }
}

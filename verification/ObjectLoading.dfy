/** Loading and inspecting one object of a graph
    (src/elf/linking/elf32_dependency_loader.cpp:69-162). */
module ObjectLoading {
  import opened Words
  import opened Views
  import opened AddressSpaces
  import opened MappedMemory
  import opened Layers
  import opened LoadPlans
  import opened Loader
  import opened LoadImages
  import opened Placement
  import opened Objects
  import D = DynamicTable
  import M = MetadataTables
  import S = LinkerStrings
  import R = DependencyResolver

  datatype DependencyError =
    | InvalidOptions | EmptyRootIdentity | EmptyRootImage | ImageTooLarge | TotalImageBytesExceeded | TooManyObjects
    | MaxDepthExceeded | TooManyDependencyOccurrences | DependencyResolveFailed(resolve: R.ResolveError)
    | IdentityImageMismatch | InvalidImage(plan: LoadError) | DependencyNotDynamic | PlacementFailed(placement: PlacementError)
    | LoadFailed(load: LoadError) | DynamicParseFailed(dynamic: D.DynamicError) | LinkerMetadataFailed(metadata: M.MetadataError)
    | LinkerStringFailed(strings: S.StringError) | InvalidLinkMap | RollbackFailed(primary: DependencyError)

  /** The mapped ranges of a load, in the order the segments were mapped. */
  function LoadRanges(l: Load): (rs: seq<Range>)
    ensures |rs| == |l.segments|
  {
    seq(|l.segments|, k requires 0 <= k < |l.segments| =>
          Range(l.segments[k].mapStart, l.segments[k].mapStart + l.segments[k].mapSize))
  }

  lemma {:induction false} LoadRangesOf(l: Layout)
    requires forall k :: 0 <= k < |l.placed| ==> Loadable(l.placed[k])
    ensures LoadRanges(LoadOf(l)) == RangesOf(l.placed)
  {
  }

  /** The base an image is loaded at: none for an executable, the least suitable one in
      the window for a dynamic image. */
  ghost predicate ChosenBase(s: Space, image: seq<u8>, w: Window, base: Option<u32>)
    requires WellFormed(s)
  {
    && PlanOf(s.pageSize, image).Ok?
    && match base
       case None => PlanOf(s.pageSize, image).value.imageType.Executable?
       case Some(b) =>
         && PlanOf(s.pageSize, image).value.imageType.Dynamic?
         && Suitable(s, PlanOf(s.pageSize, image).value, w, b)
         && forall other :: Suitable(s, PlanOf(s.pageSize, image).value, w, other) ==> b <= other
  }

  /** `s'` is `s` with the image installed at its chosen base. */
  ghost predicate Settled(s: Space, image: seq<u8>, w: Window, s': Space, load: Load)
    requires WellFormed(s)
  {
    exists base :: ChosenBase(s, image, w, base) && Installed(s, image, base, s', load)
  }

  /** Why an image cannot be loaded into `s`; only a refusing host explains MapFailed and ProtectFailed. */
  ghost predicate LoadProblem(s: Space, image: seq<u8>, w: Window, requireDynamic: bool, grants: bool, e: DependencyError)
    requires WellFormed(s)
  {
    match e
    case InvalidImage(x) => PlanOf(s.pageSize, image) == Err(x)
    case DependencyNotDynamic =>
      requireDynamic && PlanOf(s.pageSize, image).Ok? && PlanOf(s.pageSize, image).value.imageType.Executable?
    case PlacementFailed(x) =>
      && PlanOf(s.pageSize, image).Ok? && PlanOf(s.pageSize, image).value.imageType.Dynamic?
      && ((x == InvalidSearchWindow && (w.end > ADDRESS_SPACE || w.begin >= w.end))
          || (x == NoSpace && forall b :: !Suitable(s, PlanOf(s.pageSize, image).value, w, b)))
    case LoadFailed(x) =>
      exists base :: ChosenBase(s, image, w, base)
                     && (LoadOutcome(s, image, base) == Err(x) || (!grants && (x == MapFailed || x == ProtectFailed)))
    case _ => false
  }

  /** load_object.  A failure has a cause and changes nothing when the host releases
      pages; pages that were mapped are never touched. */
  method LoadObject(m: MappedGuestMemory, image: seq<u8>, w: Window, requireDynamic: bool) returns (r: Result<Load, DependencyError>)
    requires m.Valid()
    modifies m, m.buffer
    ensures m.Valid() && KeepsMapped(old(m.State()), m.State())
    ensures r.Ok? ==> Layered(old(m.State()), LoadRanges(r.value), m.State())
    ensures r.Ok? ==> Settled(old(m.State()), image, w, m.State(), r.value)
    ensures r.Ok? && requireDynamic ==> PlanOf(m.pageSize, image).Ok? && PlanOf(m.pageSize, image).value.imageType.Dynamic?
    ensures r.Err? && m.HostReleases() ==> m.State() == old(m.State())
    ensures r.Err? ==> LoadProblem(old(m.State()), image, w, requireDynamic, m.HostGrants(), r.error)
  {
    hide PlanOf, Installed, Layered, LoadOutcome, Suitable, LoadRanges, KeepsMapped;
    ghost var before := m.State();
    KeepsItself(before);
    var planned := PlanLoad(m.pageSize, image);
    if planned.Err? {
      return Err(DependencyError.InvalidImage(planned.error));
    }
    if requireDynamic && planned.value.imageType.Executable? {
      return Err(DependencyNotDynamic);
    }
    var base: Option<u32> := None;
    if planned.value.imageType.Dynamic? {
      var placed := PlaceDynamic(m, image, w);
      if placed.Err? {
        return Err(PlacementFailed(placed.error));
      }
      base := Some(placed.value);
    }
    assert ChosenBase(before, image, w, base);
    hide ChosenBase;
    var loaded := LoadElf32(m, image, base);
    if loaded.Err? {
      return Err(LoadFailed(loaded.error));
    }
    InstalledLayers(before, image, base, m.State(), loaded.value);
    return Ok(loaded.value);
  }

  /** Without host failures, the only way a dynamic image that was placed can fail to load
      is an entry point that leaves the address space. */
  lemma {:induction false} PlacedImagesLoad(s: Space, image: seq<u8>, w: Window, requireDynamic: bool, e: DependencyError)
    requires WellFormed(s) && LoadProblem(s, image, w, requireDynamic, true, e) && e.LoadFailed?
    requires PlanOf(s.pageSize, image).Ok? && PlanOf(s.pageSize, image).value.imageType.Dynamic?
    ensures e.load == EntryAddressOverflow
  {
    hide PlanOf, LoadOutcome, Suitable;
    var base :| ChosenBase(s, image, w, base) && LoadOutcome(s, image, base) == Err(e.load);
    PlacedBaseLoads(s, image, w, base.value);
  }

  lemma {:induction false} InstalledLayers(s: Space, image: seq<u8>, base: Option<u32>, s': Space, load: Load)
    requires WellFormed(s) && Installed(s, image, base, s', load)
    ensures Layered(s, LoadRanges(load), s')
  {
    hide Rem, PlanOf, LayoutOf, Layered, LoadRanges, GoodPlacement;
    var l := LoadOutcome(s, image, base).value;
    assert forall k :: 0 <= k < |l.placed| ==> Loadable(l.placed[k]);
    LoadRangesOf(l);
  }

  /** inspect_object: the object with its dynamic entries, metadata and names. */
  function Inspected(v: View, o: Object, maxString: u32): (r: Result<Object, DependencyError>)
    ensures r.Ok? ==> && r.value.identity == o.identity && r.value.image == o.image && r.value.load == o.load
                      && r.value.dependencies == o.dependencies
    ensures r.Err? ==> r.error.DynamicParseFailed? || r.error.LinkerMetadataFailed? || r.error.LinkerStringFailed?
  {
    if o.load.None? || o.load.value.dynamicSegment.None? then Ok(o)
    else match D.ParseDynamic(v, o.load.value.dynamicSegment.value)
         case Err(e) => Err(DynamicParseFailed(e))
         case Ok(entries) =>
           match M.MetadataOf(v, o.Bias(), entries)
           case Err(e) => Err(LinkerMetadataFailed(e))
           case Ok(metadata) =>
             match S.StringsOf(v, metadata, maxString)
             case Err(e) => Err(LinkerStringFailed(e))
             case Ok(strings) => Ok(o.(dynamicEntries := entries, metadata := metadata, strings := strings))
  }

  method InspectObject(v: View, o: Object, maxString: u32) returns (r: Result<Object, DependencyError>)
    ensures r == Inspected(v, o, maxString)
  {
    hide D.ParseDynamic, M.MetadataOf, S.StringsOf;
    if o.load.None? || o.load.value.dynamicSegment.None? {
      return Ok(o);
    }
    var entries := D.ParseDynamicSegment(v, o.load.value.dynamicSegment.value);
    if entries.Err? {
      return Err(DynamicParseFailed(entries.error));
    }
    var metadata := M.MetadataOf(v, o.Bias(), entries.value);
    if metadata.Err? {
      return Err(LinkerMetadataFailed(metadata.error));
    }
    var strings := S.BuildStrings(v, metadata.value, maxString);
    if strings.Err? {
      return Err(LinkerStringFailed(strings.error));
    }
    return Ok(o.(dynamicEntries := entries.value, metadata := metadata.value, strings := strings.value));
  }

  /** The stages compose: right after a load, inspection reads exactly the PT_DYNAMIC
      bytes of the image, and neither the dynamic nor the string stage can meet its
      defensive errors. */
  lemma {:induction false} InspectAfterLoad(s: Space, base: Option<u32>, s': Space, o: Object, maxString: u32)
    requires WellFormed(s) && o.load.Some? && Installed(s, o.image, base, s', o.load.value)
    ensures WellFormed(s') && match Inspected(ViewOf(s'), o, maxString)
            case Ok(_) => true
            case Err(e) => || e == DynamicParseFailed(D.TruncatedEntry) || e == DynamicParseFailed(D.Unterminated)
                           || e.LinkerMetadataFailed?
                           || e == LinkerStringFailed(S.UnterminatedString) || e == LinkerStringFailed(S.StringTooLong)
  {
    hide Installed, PlanOf, D.ParseDynamic, M.MetadataOf, S.StringsOf, M.GoodMetadata;
    InstalledLayers(s, o.image, base, s', o.load.value);
    if o.load.value.dynamicSegment.None? {
      return;
    }
    D.ParseAfterLoad(s, o.image, base, s', o.load.value);
    var entries := D.ParseDynamic(ViewOf(s'), o.load.value.dynamicSegment.value);
    if entries.Ok? {
      var metadata := M.MetadataOf(ViewOf(s'), o.Bias(), entries.value);
      if metadata.Ok? {
        M.MetadataSound(ViewOf(s'), o.Bias(), entries.value);
        M.StringsAfterMetadata(ViewOf(s'), metadata.value, maxString);
      }
    }
  }
}

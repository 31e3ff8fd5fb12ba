/** The loaded objects of a dependency graph and the metadata the linker keeps for them
    (src/elf/elf32_linker_metadata.h, src/elf/elf32_dependency_graph.h). */
module Objects {
  import opened Words
  import opened Loader

  /** ELF names are byte strings. */
  type Name = seq<u8>

  datatype StringTable = StringTable(guest: u32, size: u32)
  datatype SymbolTable = SymbolTable(guest: u32, entrySize: u32)
  datatype RelTable = RelTable(guest: u32, size: u32, entrySize: u32)
  datatype FunctionArray = FunctionArray(guest: u32, size: u32)
  datatype VersionTable = VersionTable(guest: u32, count: u32)

  datatype Metadata = Metadata(
    stringTable: Option<StringTable>, symbolTable: Option<SymbolTable>,
    sysvHash: Option<u32>, gnuHash: Option<u32>,
    relTable: Option<RelTable>, pltRelTable: Option<RelTable>,
    initArray: Option<FunctionArray>, finiArray: Option<FunctionArray>,
    versym: Option<u32>, verdef: Option<VersionTable>, verneed: Option<VersionTable>,
    sonameOffset: Option<u32>, neededOffsets: seq<u32>, flags1: Option<u32>,
    global: bool, symbolic: bool, hasVersioning: bool)

  const NO_METADATA := Metadata(None, None, None, None, None, None, None, None, None, None, None, None, [], None,
                                false, false, false)

  datatype Strings = Strings(soname: Option<Name>, needed: seq<Name>)

  datatype DynamicEntry = DynamicEntry(tag: int, value: u32)

  datatype Edge = Edge(requestedName: Name, target: nat)

  datatype Object = Object(identity: Name, image: seq<u8>, load: Option<Load>, dynamicEntries: seq<DynamicEntry>,
                           metadata: Metadata, strings: Strings, dependencies: seq<Edge>)
  {
    /** load_bias, zero before the object is loaded. */
    function Bias(): u32 { if load.Some? then load.value.bias else 0 }
  }

  type Graph = seq<Object>

  /** Every edge names an object of the graph. */
  ghost predicate EdgesInRange(g: Graph) {
    forall i, k :: 0 <= i < |g| && 0 <= k < |g[i].dependencies| ==> g[i].dependencies[k].target < |g|
  }
}

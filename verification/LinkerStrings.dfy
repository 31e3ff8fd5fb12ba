/** Reading NUL-terminated names in 256-byte chunks (src/elf/metadata/elf32_linker_strings.cpp). */
module LinkerStrings {
  import opened Words
  import opened Views
  import opened Objects

  datatype StringError =
    MissingStringTable | StringOffsetOutOfRange | AddressOverflow | ReadFailed | UnterminatedString | StringTooLong

  const CHUNK := 256

  /** The bytes from `pos` to `end`, one by one: the first NUL ends the name, a byte beyond
      the limit makes it too long. */
  function ScanChunk(v: View, start: u32, pos: nat, end: nat, max: u32): Option<Result<Name, StringError>>
    requires pos <= end && Readable(v, start, end)
    decreases end - pos
  {
    if pos == end then None
    else if v[start + pos] == 0 then Some(Ok(Bytes(v, start, pos)))
    else if pos >= max then Some(Err(StringTooLong))
    else ScanChunk(v, start, pos + 1, end, max)
  }

  function ChunkSize(inspected: nat, remaining: nat, max: u32): (n: nat)
    requires inspected < remaining && inspected <= max
    ensures 0 < n <= remaining - inspected && n <= CHUNK
  {
    Min(CHUNK, Min(remaining - inspected, max + 1 - inspected))
  }

  function ReadFrom(v: View, start: u32, inspected: nat, remaining: nat, max: u32): Result<Name, StringError>
    requires inspected <= remaining && Readable(v, start, inspected)
    decreases remaining - inspected
  {
    if inspected == remaining then Err(UnterminatedString)
    else if inspected > max then Err(StringTooLong)
    else
      var chunk := ChunkSize(inspected, remaining, max);
      if start + inspected + chunk > ADDRESS_SPACE then Err(AddressOverflow)
      else if !Readable(v, start + inspected, chunk) then Err(ReadFailed)
      else
        assert Readable(v, start, inspected + chunk);
        match ScanChunk(v, start, inspected, inspected + chunk, max)
        case Some(r) => r
        case None => ReadFrom(v, start, inspected + chunk, remaining, max)
  }

  function ReadString(v: View, table: StringTable, offset: u32, max: u32): Result<Name, StringError> {
    if offset >= table.size then Err(StringOffsetOutOfRange)
    else if table.guest + offset >= ADDRESS_SPACE then Err(AddressOverflow)
    else ReadFrom(v, table.guest + offset, 0, table.size - offset, max)
  }

  /** The loop over one chunk. */
  method ScanBuffer(v: View, start: u32, inspected: nat, buffer: seq<u8>, max: u32, value: Name)
    returns (stop: Option<Result<Name, StringError>>, bytes: Name)
    requires Readable(v, start, inspected + |buffer|) && Bytes(v, start + inspected, |buffer|) == buffer
    requires value == Bytes(v, start, inspected)
    ensures stop == ScanChunk(v, start, inspected, inspected + |buffer|, max)
    ensures stop.None? ==> bytes == Bytes(v, start, inspected + |buffer|)
  {
    bytes := value;
    var index := 0;
    while index < |buffer|
      invariant 0 <= index <= |buffer|
      invariant bytes == Bytes(v, start, inspected + index)
      invariant ScanChunk(v, start, inspected + index, inspected + |buffer|, max)
                == ScanChunk(v, start, inspected, inspected + |buffer|, max)
    {
      var byte := buffer[index];
      assert byte == v[start + (inspected + index)];
      if byte == 0 {
        return Some(Ok(bytes)), bytes;
      }
      if inspected + index >= max {
        return Some(Err(StringTooLong)), bytes;
      }
      bytes := bytes + [byte];
      index := index + 1;
    }
    return None, bytes;
  }

  /** The chunk loop. */
  method ReadChunks(v: View, start: u32, remaining: nat, max: u32) returns (r: Result<Name, StringError>)
    ensures r == ReadFrom(v, start, 0, remaining, max)
  {
    hide ScanChunk;
    var value: Name := [];
    var inspected := 0;
    while inspected < remaining && inspected < max + 1
      invariant 0 <= inspected <= remaining
      invariant Readable(v, start, inspected) && value == Bytes(v, start, inspected)
      invariant ReadFrom(v, start, inspected, remaining, max) == ReadFrom(v, start, 0, remaining, max)
    {
      var chunk := ChunkSize(inspected, remaining, max);
      var current := start + inspected;
      if current >= ADDRESS_SPACE || current + chunk - 1 >= ADDRESS_SPACE {
        return Err(AddressOverflow);
      }
      var buffer := Read(v, current, chunk);
      if buffer.None? {
        return Err(ReadFailed);
      }
      assert Readable(v, start, inspected + chunk);
      var stop, bytes := ScanBuffer(v, start, inspected, buffer.value, max, value);
      if stop.Some? {
        return stop.value;
      }
      value := bytes;
      inspected := inspected + chunk;
    }
    if inspected >= remaining {
      return Err(UnterminatedString);
    }
    return Err(StringTooLong);
  }

  /** read_elf32_string_table_entry. */
  method ReadStringEntry(v: View, table: StringTable, offset: u32, max: u32) returns (r: Result<Name, StringError>)
    ensures r == ReadString(v, table, offset, max)
  {
    hide ReadFrom;
    if offset >= table.size {
      return Err(StringOffsetOutOfRange);
    }
    if table.guest + offset >= ADDRESS_SPACE {
      return Err(AddressOverflow);
    }
    r := ReadChunks(v, table.guest + offset, table.size - offset, max);
  }

  // -------------------------------------------------------------- chunks and bytes

  /** Reading byte by byte: no chunk, no read-ahead. */
  function ScanBytes(v: View, start: u32, pos: nat, remaining: nat, max: u32): Result<Name, StringError>
    requires pos <= remaining && Readable(v, start, pos)
    decreases remaining - pos
  {
    if pos == remaining then Err(UnterminatedString)
    else if start + pos >= ADDRESS_SPACE then Err(AddressOverflow)
    else if start + pos !in v then Err(ReadFailed)
    else if v[start + pos] == 0 then Ok(Bytes(v, start, pos))
    else if pos >= max then Err(StringTooLong)
    else ScanBytes(v, start, pos + 1, remaining, max)
  }

  lemma {:induction false} ScanChunkBytes(v: View, start: u32, pos: nat, end: nat, remaining: nat, max: u32)
    requires pos <= end <= remaining && Readable(v, start, end)
    ensures match ScanChunk(v, start, pos, end, max)
            case Some(r) => ScanBytes(v, start, pos, remaining, max) == r
            case None => ScanBytes(v, start, pos, remaining, max) == ScanBytes(v, start, end, remaining, max)
    decreases end - pos
  {
    if pos < end {
      assert start + pos in v;
      if v[start + pos] != 0 && pos < max { ScanChunkBytes(v, start, pos + 1, end, remaining, max); }
    }
  }

  /** The chunked reader agrees with the byte-by-byte scan whenever the range it may touch is
      readable; and whatever it returns successfully, the scan returns too. */
  lemma {:induction false} ReadFromBytes(v: View, start: u32, inspected: nat, remaining: nat, max: u32)
    requires inspected <= remaining && inspected <= max + 1 && Readable(v, start, inspected)
    requires inspected == max + 1 ==> inspected == remaining
    ensures Readable(v, start, remaining) ==>
              ReadFrom(v, start, inspected, remaining, max) == ScanBytes(v, start, inspected, remaining, max)
    ensures ReadFrom(v, start, inspected, remaining, max).Ok? ==>
              ReadFrom(v, start, inspected, remaining, max) == ScanBytes(v, start, inspected, remaining, max)
    decreases remaining - inspected
  {
    if inspected < remaining {
      var chunk := ChunkSize(inspected, remaining, max);
      if Readable(v, start, remaining) {
        InSpace(v, start, remaining);
        assert Readable(v, start + inspected, chunk);
      }
      if start + inspected + chunk <= ADDRESS_SPACE && Readable(v, start + inspected, chunk) {
        assert Readable(v, start, inspected + chunk);
        ScanChunkBytes(v, start, inspected, inspected + chunk, remaining, max);
        if ScanChunk(v, start, inspected, inspected + chunk, max).None? {
          if inspected + chunk == max + 1 { LastByteStops(v, start, inspected, max); }
          ReadFromBytes(v, start, inspected + chunk, remaining, max);
        }
      }
    }
  }

  /** A chunk that reaches the probe limit always decides. */
  lemma {:induction false} LastByteStops(v: View, start: u32, pos: nat, max: u32)
    requires pos <= max && Readable(v, start, max + 1)
    ensures ScanChunk(v, start, pos, max + 1, max).Some?
    decreases max - pos
  {
    if pos < max { LastByteStops(v, start, pos + 1, max); }
  }

  lemma {:induction false} InSpace(v: View, start: u32, n: nat)
    requires Readable(v, start, n) && n > 0
    ensures start + n <= ADDRESS_SPACE
  {
    assert start + n - 1 in v;
  }

  /** The string that starts at an address. */
  ghost predicate IsStringAt(v: View, start: u32, name: Name) {
    && Readable(v, start, |name| + 1) && Bytes(v, start, |name|) == name
    && (forall k :: 0 <= k < |name| ==> name[k] != 0) && v[start + |name|] == 0
  }

  lemma {:induction false} ScanBytesMeaning(v: View, start: u32, pos: nat, remaining: nat, max: u32, name: Name)
    requires pos <= remaining && pos <= max && Readable(v, start, pos)
    requires forall a :: start <= a < start + pos ==> v[a] != 0
    ensures ScanBytes(v, start, pos, remaining, max) == Ok(name)
            <==> pos <= |name| < remaining && |name| <= max && IsStringAt(v, start, name)
    decreases remaining - pos
  {
    if pos < remaining && start + pos in v {
      if v[start + pos] != 0 {
        if pos < max {
          ScanBytesMeaning(v, start, pos + 1, remaining, max, name);
        }
      } else {
        assert IsStringAt(v, start, Bytes(v, start, pos));
        if IsStringAt(v, start, name) && pos <= |name| { NulInside(v, start, name, pos); }
      }
    }
  }

  lemma {:induction false} NonZeroInside(v: View, start: u32, name: Name, k: nat)
    requires IsStringAt(v, start, name) && k < |name|
    ensures v[start + k] != 0
  {
    assert Bytes(v, start, |name|)[k] == name[k];
  }

  /** A string has no NUL before its end. */
  lemma {:induction false} NulInside(v: View, start: u32, name: Name, pos: nat)
    requires IsStringAt(v, start, name) && pos <= |name| && v[start + pos] == 0
    ensures pos == |name| && Bytes(v, start, pos) == name
  {
    if pos < |name| { NonZeroInside(v, start, name, pos); }
  }

  /** Once the table's range has been validated, reading a name returns exactly the string at
      its offset, and the only failures are a missing NUL and a name beyond the limit. */
  lemma {:induction false} ReadStringMeaning(v: View, table: StringTable, offset: u32, max: u32)
    requires Readable(v, table.guest, table.size) && offset < table.size
    ensures var r := ReadString(v, table, offset, max);
            && (r.Err? ==> r.error == UnterminatedString || r.error == StringTooLong)
            && forall name :: r == Ok(name) <==>
                 |name| < table.size - offset && |name| <= max && table.guest + offset < ADDRESS_SPACE
                 && IsStringAt(v, table.guest + offset, name)
  {
    InSpace(v, table.guest, table.size);
    var start, remaining := table.guest + offset, table.size - offset;
    assert Readable(v, start, remaining);
    ReadFromBytes(v, start, 0, remaining, max);
    ScanBytesErrors(v, start, 0, remaining, max);
    forall name ensures ReadString(v, table, offset, max) == Ok(name) <==>
                 |name| < remaining && |name| <= max && start < ADDRESS_SPACE && IsStringAt(v, start, name) {
      ScanBytesMeaning(v, start, 0, remaining, max, name);
    }
  }

  /** The NUL-terminated string at an offset of the table, within the table and the limit. */
  ghost predicate NameFrom(v: View, t: StringTable, offset: u32, max: u32, name: Name) {
    && offset < t.size && |name| < t.size - offset && |name| <= max && t.guest + offset < ADDRESS_SPACE
    && IsStringAt(v, t.guest + offset, name)
  }

  /** On a validated table, reading gives exactly the string at the offset. */
  lemma {:induction false} NameRead(v: View, t: StringTable, offset: u32, max: u32, name: Name)
    requires Readable(v, t.guest, t.size) && offset < t.size
    ensures ReadString(v, t, offset, max) == Ok(name) <==> NameFrom(v, t, offset, max, name)
  {
    hide ReadString, IsStringAt;
    ReadStringMeaning(v, t, offset, max);
  }

  /** Whatever is read, on any table, is the string at the offset. */
  lemma {:induction false} NameSound(v: View, t: StringTable, offset: u32, max: u32, name: Name)
    requires ReadString(v, t, offset, max) == Ok(name)
    ensures NameFrom(v, t, offset, max, name)
  {
    ReadFromBytes(v, t.guest + offset, 0, t.size - offset, max);
    ScanBytesMeaning(v, t.guest + offset, 0, t.size - offset, max, name);
  }

  lemma {:induction false} ScanBytesErrors(v: View, start: u32, pos: nat, remaining: nat, max: u32)
    requires pos <= remaining && Readable(v, start, remaining)
    ensures var r := ScanBytes(v, start, pos, remaining, max);
            r.Err? ==> r.error == UnterminatedString || r.error == StringTooLong
    decreases remaining - pos
  {
    if pos < remaining {
      assert start + pos in v;
      ScanBytesErrors(v, start, pos + 1, remaining, max);
    }
  }

  // ------------------------------------------------------------- SONAME and DT_NEEDED

  function ReadNeeded(v: View, table: StringTable, offsets: seq<u32>, max: u32, done: seq<Name>): Result<seq<Name>, StringError> {
    if offsets == [] then Ok(done)
    else match ReadString(v, table, offsets[0], max)
         case Err(e) => Err(e)
         case Ok(name) => ReadNeeded(v, table, offsets[1..], max, done + [name])
  }

  function StringsOf(v: View, m: Metadata, max: u32): Result<Strings, StringError> {
    if m.sonameOffset.None? && m.neededOffsets == [] then Ok(Strings(None, []))
    else match m.stringTable
         case None => Err(MissingStringTable)
         case Some(table) =>
           match (if m.sonameOffset.None? then Ok(None)
                  else match ReadString(v, table, m.sonameOffset.value, max)
                       case Err(e) => Err(e)
                       case Ok(name) => Ok(Some(name)))
           case Err(e) => Err(e)
           case Ok(soname) =>
             match ReadNeeded(v, table, m.neededOffsets, max, [])
             case Err(e) => Err(e)
             case Ok(needed) => Ok(Strings(soname, needed))
  }

  /** build_elf32_linker_strings. */
  method BuildStrings(v: View, m: Metadata, max: u32) returns (r: Result<Strings, StringError>)
    ensures r == StringsOf(v, m, max)
  {
    if m.sonameOffset.None? && m.neededOffsets == [] {
      return Ok(Strings(None, []));
    }
    if m.stringTable.None? {
      return Err(MissingStringTable);
    }
    var table := m.stringTable.value;
    var soname: Option<Name> := None;
    if m.sonameOffset.Some? {
      var s := ReadStringEntry(v, table, m.sonameOffset.value, max);
      if s.Err? {
        return Err(s.error);
      }
      soname := Some(s.value);
    }
    var needed := [];
    var i := 0;
    while i < |m.neededOffsets|
      invariant 0 <= i <= |m.neededOffsets|
      invariant ReadNeeded(v, table, m.neededOffsets[i..], max, needed) == ReadNeeded(v, table, m.neededOffsets, max, [])
    {
      assert m.neededOffsets[i..][1..] == m.neededOffsets[i + 1..];
      var s := ReadStringEntry(v, table, m.neededOffsets[i], max);
      if s.Err? {
        return Err(s.error);
      }
      needed := needed + [s.value];
      i := i + 1;
    }
    return Ok(Strings(soname, needed));
  }
}

/**
 A process's descriptor table: chunks of 64 slots that appear when first needed, a close-on-exec bit
 beside each slot, and a hint below which no number is free.
 */
module FileTable {
  import opened Wrappers

  const SLOTS: nat := 64
  const TABLE_MAX: nat := 1024 * 1024

  datatype Error = InvalidArgument | AlreadyExists | NotFound | TooManyOpenFiles
  type Outcome<T> = Result<T, Error>

  /** Open files are named by number. */
  datatype Chunk = Chunk(slots: seq<Option<nat>>, cloexec: seq<bool>)

  type Chunks = seq<Option<Chunk>>

  // ------------------------------------------------------------------ what the chunks mean

  ghost predicate Shaped(chunks: Chunks) {
    && |chunks| <= TABLE_MAX / SLOTS
    && forall c :: 0 <= c < |chunks| && chunks[c].Some? ==>
         |chunks[c].value.slots| == SLOTS && |chunks[c].value.cloexec| == SLOTS
  }

  function ChunkAt(chunks: Chunks, fd: nat): Option<Chunk> {
    if fd / SLOTS < |chunks| then chunks[fd / SLOTS] else None
  }

  /** The open file behind a descriptor. */
  ghost function OpenAt(chunks: Chunks, fd: nat): Option<nat>
    requires Shaped(chunks)
  {
    var chunk := ChunkAt(chunks, fd);
    if chunk.Some? then chunk.value.slots[fd % SLOTS] else None
  }

  ghost function ArmedAt(chunks: Chunks, fd: nat): bool
    requires Shaped(chunks)
  {
    var chunk := ChunkAt(chunks, fd);
    chunk.Some? && chunk.value.cloexec[fd % SLOTS]
  }

  /** Two tables show the same. */
  ghost predicate Same(chunks: Chunks, chunks': Chunks) {
    Shaped(chunks) && Shaped(chunks') && forall g: nat ::
      OpenAt(chunks', g) == OpenAt(chunks, g) && ArmedAt(chunks', g) == ArmedAt(chunks, g)
  }

  function SetSlot(chunks: Chunks, fd: nat, slot: Option<nat>, armed: bool): Chunks
    requires ChunkAt(chunks, fd).Some? && |ChunkAt(chunks, fd).value.slots| == SLOTS
    requires |ChunkAt(chunks, fd).value.cloexec| == SLOTS
  {
    var chunk := ChunkAt(chunks, fd).value;
    chunks[fd / SLOTS := Some(Chunk(chunk.slots[fd % SLOTS := slot], chunk.cloexec[fd % SLOTS := armed]))]
  }

  lemma SamePlace(f: nat, g: nat)
    requires f / SLOTS == g / SLOTS && f % SLOTS == g % SLOTS
    ensures f == g
  {
    assert f == f / SLOTS * SLOTS + f % SLOTS;
    assert g == g / SLOTS * SLOTS + g % SLOTS;
  }

  lemma SetSlotAt(chunks: Chunks, fd: nat, slot: Option<nat>, armed: bool, g: nat)
    requires Shaped(chunks) && ChunkAt(chunks, fd).Some?
    ensures Shaped(SetSlot(chunks, fd, slot, armed))
    ensures OpenAt(SetSlot(chunks, fd, slot, armed), g) == if g == fd then slot else OpenAt(chunks, g)
    ensures ArmedAt(SetSlot(chunks, fd, slot, armed), g) == if g == fd then armed else ArmedAt(chunks, g)
  {
    if g / SLOTS == fd / SLOTS && g % SLOTS == fd % SLOTS {
      SamePlace(g, fd);
    }
  }

  lemma InChunk(fd: nat, local: nat)
    requires local < SLOTS
    ensures (fd / SLOTS * SLOTS + local) / SLOTS == fd / SLOTS && (fd / SLOTS * SLOTS + local) % SLOTS == local
  {
  }

  lemma BoundedChunk(fd: nat)
    requires fd < TABLE_MAX
    ensures fd / SLOTS < TABLE_MAX / SLOTS
  {
  }

  // ------------------------------------------------------------------ the table

  class FileTable {
    var chunks: Chunks
    var nextFd: nat

    ghost predicate Valid()
      reads this
    {
      && Shaped(chunks) && nextFd <= TABLE_MAX
      && (forall fd: nat :: ArmedAt(chunks, fd) ==> OpenAt(chunks, fd).Some?)
      && forall fd: nat :: fd < nextFd ==> OpenAt(chunks, fd).Some?
    }

    constructor ()
      ensures Valid() && forall fd: nat :: OpenAt(chunks, fd) == None
    {
      chunks, nextFd := [], 0;
    }

    /** Makes sure a descriptor's chunk is there; the table shows the same as before. */
    method EnsureChunk(fd: nat) returns (ok: bool)
      requires Shaped(chunks)
      modifies this`chunks
      ensures Same(old(chunks), chunks)
      ensures ok <==> fd < TABLE_MAX
      ensures ok ==> ChunkAt(chunks, fd).Some?
      ensures !ok ==> chunks == old(chunks)
    {
      if fd >= TABLE_MAX {
        return false;
      }
      BoundedChunk(fd);
      var index := fd / SLOTS;
      if index >= |chunks| {
        var wanted := if index + 1 < |chunks| * 2 then |chunks| * 2 else index + 1;
        var count := if wanted < TABLE_MAX / SLOTS then wanted else TABLE_MAX / SLOTS;
        var news: Chunks := [];
        while |news| < count
          invariant |news| <= count && forall c :: 0 <= c < |news| ==>
                      news[c] == if c < |chunks| then chunks[c] else None
          modifies {}
        {
          news := news + [if |news| < |chunks| then chunks[|news|] else None];
        }
        Grown(chunks, news);
        chunks := news;
      }
      if chunks[index].None? {
        EmptyChunk(chunks, index);
        chunks := chunks[index := Some(Chunk(seq(SLOTS, i => None), seq(SLOTS, i => false)))];
      }
      ok := true;
    }

    /** The lowest free number from `floor` on and below the limit. */
    method Vacant(floor: nat, limit: nat) returns (r: Outcome<nat>)
      requires Valid()
      ensures r.Ok? ==> floor <= r.value < limit && r.value < TABLE_MAX && OpenAt(chunks, r.value) == None
      ensures r.Ok? ==> forall g: nat :: floor <= g < r.value ==> OpenAt(chunks, g).Some?
      ensures r.Err? ==> r.error == TooManyOpenFiles && forall g: nat :: floor <= g < limit && g < TABLE_MAX ==>
                OpenAt(chunks, g).Some?
    {
      var top := if limit < TABLE_MAX then limit else TABLE_MAX;
      var fd := if floor < nextFd then nextFd else floor;
      while fd < top
        invariant floor <= fd && forall g: nat :: floor <= g < fd ==> OpenAt(chunks, g).Some?
        decreases top - fd
      {
        var chunk := ChunkAt(chunks, fd);
        if chunk.None? {
          return Ok(fd);
        }
        var local := VacantSlot(chunk.value.slots, fd % SLOTS);
        var start := fd / SLOTS * SLOTS;
        forall g: nat | fd <= g < start + local
          ensures OpenAt(chunks, g).Some?
        {
          InChunk(fd, g - start);
        }
        if local < SLOTS {
          InChunk(fd, local);
          return if start + local < top then Ok(start + local) else Err(TooManyOpenFiles);
        }
        fd := start + SLOTS;
      }
      r := Err(TooManyOpenFiles);
    }

    /** Opens the lowest free number from `floor` on. */
    method AdoptFrom(file: Option<nat>, floor: nat, cloexec: bool, limit: nat) returns (r: Outcome<nat>)
      requires Valid()
      modifies this
      ensures Valid()
      ensures r == Err(InvalidArgument) <==> file.None?
      ensures r == Err(TooManyOpenFiles) <==> file.Some? && forall g: nat :: floor <= g < limit && g < TABLE_MAX ==>
                OpenAt(old(chunks), g).Some?
      ensures r.Ok? ==> floor <= r.value < limit && OpenAt(old(chunks), r.value) == None
      ensures r.Ok? ==> forall g: nat :: floor <= g < r.value ==> OpenAt(old(chunks), g).Some?
      ensures r.Ok? || r.error in {InvalidArgument, TooManyOpenFiles}
      ensures forall g: nat :: OpenAt(chunks, g) == if r.Ok? && g == r.value then file else OpenAt(old(chunks), g)
      ensures forall g: nat :: ArmedAt(chunks, g) == if r.Ok? && g == r.value then cloexec else ArmedAt(old(chunks), g)
    {
      if file.None? {
        return Err(InvalidArgument);
      }
      r := Vacant(floor, limit);
      if r.Err? {
        return;
      }
      var fd := r.value;
      var ok := EnsureChunk(fd);
      Place(fd, file, cloexec);
      if floor <= nextFd {
        nextFd := fd + 1;
      }
    }

    /** Writes one slot and its bit. */
    method Place(fd: nat, slot: Option<nat>, armed: bool)
      requires Shaped(chunks) && ChunkAt(chunks, fd).Some?
      modifies this`chunks
      ensures Shaped(chunks) && ChunkAt(chunks, fd).Some? && |chunks| == |old(chunks)|
      ensures forall g: nat :: OpenAt(chunks, g) == if g == fd then slot else OpenAt(old(chunks), g)
      ensures forall g: nat :: ArmedAt(chunks, g) == if g == fd then armed else ArmedAt(old(chunks), g)
    {
      ghost var was := chunks;
      chunks := SetSlot(chunks, fd, slot, armed);
      forall g: nat
        ensures OpenAt(chunks, g) == if g == fd then slot else OpenAt(was, g)
        ensures ArmedAt(chunks, g) == if g == fd then armed else ArmedAt(was, g)
      {
        SetSlotAt(was, fd, slot, armed, g);
      }
    }

    /** Opens exactly this number. */
    method AdoptAt(file: Option<nat>, fd: nat) returns (r: Outcome<nat>)
      requires Valid()
      modifies this`chunks
      ensures Valid()
      ensures r == if file.None? || fd >= TABLE_MAX then Err(InvalidArgument)
                   else if OpenAt(old(chunks), fd).Some? then Err(AlreadyExists) else Ok(fd)
      ensures forall g: nat :: OpenAt(chunks, g) == if r.Ok? && g == fd then file else OpenAt(old(chunks), g)
      ensures forall g: nat :: ArmedAt(chunks, g) == if r.Ok? && g == fd then false else ArmedAt(old(chunks), g)
    {
      if file.None? || fd >= TABLE_MAX {
        return Err(InvalidArgument);
      }
      var ok := EnsureChunk(fd);
      var slot := ChunkAt(chunks, fd).value.slots[fd % SLOTS];
      assert slot == OpenAt(chunks, fd) == OpenAt(old(chunks), fd);
      if slot.Some? {
        return Err(AlreadyExists);
      }
      Place(fd, file, false);
      r := Ok(fd);
    }

    /** The open file behind a number. */
    method Shared(fd: nat) returns (r: Outcome<nat>)
      requires Valid()
      ensures r == if fd >= TABLE_MAX then Err(InvalidArgument)
                else if OpenAt(chunks, fd).Some? then Ok(OpenAt(chunks, fd).value) else Err(NotFound)
    {
      if fd >= TABLE_MAX {
        return Err(InvalidArgument);
      }
      var chunk := ChunkAt(chunks, fd);
      if chunk.Some? && chunk.value.slots[fd % SLOTS].Some? {
        return Ok(chunk.value.slots[fd % SLOTS].value);
      }
      r := Err(NotFound);
    }

    /** Empties a number and lets the hint fall to it. */
    method Detach(fd: nat) returns (file: Option<nat>)
      requires Valid()
      modifies this
      ensures Valid() && |chunks| == |old(chunks)| && file == OpenAt(old(chunks), fd)
      ensures ChunkAt(old(chunks), fd).Some? ==> ChunkAt(chunks, fd).Some?
      ensures nextFd == if file.Some? && fd < old(nextFd) then fd else old(nextFd)
      ensures forall g: nat :: OpenAt(chunks, g) == if g == fd then None else OpenAt(old(chunks), g)
      ensures forall g: nat :: ArmedAt(chunks, g) == (g != fd && ArmedAt(old(chunks), g))
    {
      var chunk := ChunkAt(chunks, fd);
      if chunk.None? {
        return None;
      }
      file := chunk.value.slots[fd % SLOTS];
      if file.Some? {
        nextFd := if fd < nextFd then fd else nextFd;
      }
      Place(fd, None, false);
    }

    method Close(fd: nat) returns (r: Outcome<()>)
      requires Valid()
      modifies this
      ensures Valid()
      ensures r == if fd >= TABLE_MAX then Err(InvalidArgument) else if OpenAt(old(chunks), fd).Some? then Ok(())
                else Err(NotFound)
      ensures forall g: nat :: OpenAt(chunks, g) == if r.Ok? && g == fd then None else OpenAt(old(chunks), g)
      ensures forall g: nat :: ArmedAt(chunks, g) == (!(r.Ok? && g == fd) && ArmedAt(old(chunks), g))
    {
      var slot := Shared(fd);
      if slot.Err? {
        return Err(slot.error);
      }
      var held := Detach(fd);
      r := Ok(());
    }

    method SetCloexec(fd: nat, armed: bool) returns (r: Outcome<()>)
      requires Valid()
      modifies this`chunks
      ensures Valid()
      ensures r == if fd >= TABLE_MAX then Err(InvalidArgument) else if OpenAt(old(chunks), fd).Some? then Ok(())
                else Err(NotFound)
      ensures forall g: nat :: OpenAt(chunks, g) == OpenAt(old(chunks), g)
      ensures forall g: nat :: ArmedAt(chunks, g) == if r.Ok? && g == fd then armed else ArmedAt(old(chunks), g)
    {
      var slot := Shared(fd);
      if slot.Err? {
        return Err(slot.error);
      }
      Place(fd, Some(slot.value), armed);
      r := Ok(());
    }

    /** Closes exactly the descriptors marked for it. */
    method CloseOnExec()
      requires Valid()
      modifies this
      ensures Valid()
      ensures forall g: nat :: OpenAt(chunks, g) == if ArmedAt(old(chunks), g) then None else OpenAt(old(chunks), g)
      ensures forall g: nat :: !ArmedAt(chunks, g)
    {
      var capacity := |chunks| * SLOTS;
      if capacity == 0 {
        return;
      }
      var fd := 0;
      while fd < capacity
        invariant 0 <= fd <= capacity && Valid() && |chunks| == |old(chunks)|
        invariant forall g: nat ::
                    OpenAt(chunks, g) == if g < fd && ArmedAt(old(chunks), g) then None else OpenAt(old(chunks), g)
        invariant forall g: nat :: ArmedAt(chunks, g) == (g >= fd && ArmedAt(old(chunks), g))
      {
        var chunk := ChunkAt(chunks, fd);
        if chunk.Some? && chunk.value.cloexec[fd % SLOTS] {
          assert ArmedAt(chunks, fd);
          var held := Detach(fd);
        }
        fd := fd + 1;
      }
    }

    method CloseAll()
      modifies this
      ensures Valid() && nextFd == 0 && forall g: nat :: OpenAt(chunks, g) == None
    {
      chunks, nextFd := [], 0;
    }

    /** Makes `destination` another name of `source`; what it named before is closed. */
    method DuplicateAt(source: nat, destination: nat, limit: nat) returns (r: Outcome<nat>)
      requires Valid()
      modifies this
      ensures Valid()
      ensures r == if source >= TABLE_MAX then Err(InvalidArgument)
                   else if OpenAt(old(chunks), source) == None then Err(NotFound)
                   else if source != destination
                     && (destination >= limit || destination >= TABLE_MAX) then Err(InvalidArgument)
                   else Ok(destination)
      ensures forall g: nat ::
                OpenAt(chunks, g) == if r.Ok? && g == destination then OpenAt(old(chunks), source)
                  else OpenAt(old(chunks), g)
      ensures forall g: nat ::
                ArmedAt(chunks, g) == if r.Ok? && source != destination && g == destination then false
                  else ArmedAt(old(chunks), g)
    {
      var slot := Shared(source);
      if slot.Err? {
        return Err(slot.error);
      }
      if source == destination {
        return Ok(destination);
      }
      if destination >= limit || destination >= TABLE_MAX {
        return Err(InvalidArgument);
      }
      var ok := EnsureChunk(destination);
      assert Valid();
      var replaced := Detach(destination);
      Place(destination, Some(slot.value), false);
      r := Ok(destination);
    }

    /** A copy that shows the same and gives out the same numbers. */
    method Clone() returns (copy: FileTable)
      requires Valid()
      ensures fresh(copy) && copy.Valid() && copy.nextFd == nextFd && Same(chunks, copy.chunks)
    {
      copy := new FileTable();
      var index := 0;
      while index < |chunks|
        invariant 0 <= index <= |chunks| && fresh(copy) && Shaped(copy.chunks)
        invariant forall g: nat :: OpenAt(copy.chunks, g) == if g < index * SLOTS then OpenAt(chunks, g) else None
        invariant forall g: nat :: ArmedAt(copy.chunks, g) == (g < index * SLOTS && ArmedAt(chunks, g))
        modifies copy
      {
        if chunks[index].Some? {
          copy.CopyChunk(chunks, index);
        }
        MissingChunk(chunks, index);
        index := index + 1;
      }
      forall g: nat
        ensures OpenAt(copy.chunks, g) == OpenAt(chunks, g) && ArmedAt(copy.chunks, g) == ArmedAt(chunks, g)
      {
      }
      copy.nextFd := nextFd;
    }

    /** Takes over the slots of one chunk of another table. */
    method CopyChunk(from: Chunks, index: nat)
      requires Shaped(chunks) && Shaped(from) && index < |from| && from[index].Some?
      requires forall g: nat :: ArmedAt(from, g) ==> OpenAt(from, g).Some?
      requires forall g: nat :: OpenAt(chunks, g) == if g < index * SLOTS then OpenAt(from, g) else None
      requires forall g: nat :: ArmedAt(chunks, g) == (g < index * SLOTS && ArmedAt(from, g))
      modifies this`chunks
      ensures Shaped(chunks)
      ensures forall g: nat :: OpenAt(chunks, g) == if g < index * SLOTS + SLOTS then OpenAt(from, g) else None
      ensures forall g: nat :: ArmedAt(chunks, g) == (g < index * SLOTS + SLOTS && ArmedAt(from, g))
    {
      var start := index * SLOTS;
      var ok := EnsureChunk(start);
      var local := 0;
      while local < SLOTS
        invariant 0 <= local <= SLOTS && Shaped(chunks) && ChunkAt(chunks, start).Some?
        invariant forall g: nat :: OpenAt(chunks, g) == if g < start + local then OpenAt(from, g) else None
        invariant forall g: nat :: ArmedAt(chunks, g) == (g < start + local && ArmedAt(from, g))
        modifies this`chunks
      {
        InChunk(start, local);
        var file, armed := from[index].value.slots[local], from[index].value.cloexec[local];
        if file.Some? {
          Place(start + local, file, armed);
        }
        local := local + 1;
      }
    }
  }

  method VacantSlot(slots: seq<Option<nat>>, first: nat) returns (i: nat)
    requires |slots| == SLOTS && first <= SLOTS
    ensures first <= i <= SLOTS && (i < SLOTS ==> slots[i] == None) && forall j :: first <= j < i ==> slots[j].Some?
  {
    i := first;
    while i < SLOTS && slots[i].Some?
      invariant first <= i <= SLOTS && forall j :: first <= j < i ==> slots[j].Some?
    {
      i := i + 1;
    }
  }

  lemma Grown(chunks: Chunks, news: Chunks)
    requires Shaped(chunks) && |chunks| <= |news| <= TABLE_MAX / SLOTS
    requires forall c :: 0 <= c < |news| ==> news[c] == if c < |chunks| then chunks[c] else None
    ensures Same(chunks, news)
  {
  }

  lemma EmptyChunk(chunks: Chunks, index: nat)
    requires Shaped(chunks) && index < |chunks| && chunks[index] == None
    ensures Same(chunks, chunks[index := Some(Chunk(seq(SLOTS, i => None), seq(SLOTS, i => false)))])
  {
  }

  lemma MissingChunk(chunks: Chunks, index: nat)
    requires Shaped(chunks) && index < |chunks|
    ensures chunks[index].None? ==> forall g: nat :: index * SLOTS <= g < (index + 1) * SLOTS ==>
              OpenAt(chunks, g) == None && !ArmedAt(chunks, g)
  {
    forall g: nat | index * SLOTS <= g < (index + 1) * SLOTS && chunks[index].None?
      ensures OpenAt(chunks, g) == None && !ArmedAt(chunks, g)
    {
      assert g / SLOTS == index;
    }
  }
}

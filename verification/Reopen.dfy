/**
 Opening an existing database (src/gdbmopen.c): what the file alone says is enough to have the
 database back, unless the header's validation turns it down.
 */
module Reopen {
  import opened Bits
  import opened Layout
  import opened Directory
  import opened Integrity
  import opened Database

  datatype OpenStatus = Opened | BlockSizeError | BadHeader | BadAvail | NotADatabase

  /** Size of the fixed part of the header. */
  function FixedSize(extended: bool): nat {
    if extended then 72 else 40
  }

  /** validate_header_std and validate_header_numsync, for a file of `size` bytes; the result says
      also whether the file is longer than the header admits. */
  method ValidateHeader(h: Header, size: nat) returns (rc: OpenStatus, tooLong: bool)
    ensures tooLong <==> h.nextBlock < size
    ensures rc in {Opened, BlockSizeError, BadHeader}
    ensures rc == BlockSizeError <==> h.blockSize < FixedSize(h.extended) + SIZEOF_AVAIL_BLOCK
    ensures rc == Opened <==> Plausible(h, size)
    ensures Acceptable(h) && h.dirAdr < size ==> (rc == Opened <==> h.dirAdr + h.dirSize < size)
    ensures Acceptable(h) && h.dirAdr < size ==> rc in {Opened, BadHeader}
  {
    hide DepthFor, Acceptable, ElementCount;
    if Acceptable(h) {
      AcceptableSizes(h);
    }
    tooLong := h.nextBlock < size;
    if !(h.blockSize > FixedSize(h.extended) && h.blockSize - FixedSize(h.extended) >= SIZEOF_AVAIL_BLOCK) {
      return BlockSizeError, tooLong;
    }
    if !(h.dirAdr > 0 && h.dirAdr < size && h.dirSize > 0 && h.dirAdr + h.dirSize < size) {
      return BadHeader, tooLong;
    }
    var dirSize, dirBits := ComputeDirectorySize(h.blockSize);
    SizeDetermined(h, dirSize, dirBits);
    forall bits | DepthFor(h.blockSize, bits)
      ensures bits == dirBits
    {
      DepthUnique(h.blockSize, bits, dirBits);
    }
    if !(h.dirSize >= dirSize) {
      return BadHeader, tooLong;
    }
    dirSize, dirBits := ComputeDirectorySize(h.dirSize);
    BitsDetermined(h, dirSize, dirBits);
    if DepthFor(h.dirSize, h.dirBits) {
      DepthUnique(h.dirSize, h.dirBits, dirBits);
    }
    if h.dirBits != dirBits {
      return BadHeader, tooLong;
    }
    if h.blockSize > SIZEOF_HASH_BUCKET {
      CountUnique(h.slots, ElementCount(h.blockSize), h.blockSize);
    }
    if !(h.blockSize > SIZEOF_HASH_BUCKET) || h.slots != ElementCount(h.blockSize) {
      return BadHeader, tooLong;
    }
    rc := Opened;
  }

  /** What a header has to say for a file of `size` bytes: it has room for its free table, the
      directory ends before the file does and is as large as block size and depth demand, and the
      buckets are filled with elements. */
  ghost predicate Plausible(h: Header, size: nat) {
    && FixedSize(h.extended) + SIZEOF_AVAIL_BLOCK <= h.blockSize
    && 0 < h.dirAdr && 0 < h.dirSize && h.dirAdr + h.dirSize < size && DepthFor(h.dirSize, h.dirBits)
    && (forall bits :: DepthFor(h.blockSize, bits) ==> SIZEOF_OFF_T * Pow2(bits) <= h.dirSize)
    && SIZEOF_HASH_BUCKET < h.blockSize
    && FillsBlock(SIZEOF_HASH_BUCKET - SIZEOF_BUCKET_ELEMENT, h.slots, SIZEOF_BUCKET_ELEMENT, h.blockSize)
  }

  lemma CountUnique(m: nat, n: nat, blockSize: nat)
    requires FillsBlock(SIZEOF_HASH_BUCKET - SIZEOF_BUCKET_ELEMENT, n, SIZEOF_BUCKET_ELEMENT, blockSize)
    ensures FillsBlock(SIZEOF_HASH_BUCKET - SIZEOF_BUCKET_ELEMENT, m, SIZEOF_BUCKET_ELEMENT, blockSize) <==> m == n
  {
  }

  lemma AcceptableSizes(h: Header)
    requires Acceptable(h)
    ensures h.blockSize >= MIN_BLOCK_SIZE && h.dirAdr > 0 && h.dirSize > 0
    ensures FillsBlock(SIZEOF_HASH_BUCKET - SIZEOF_BUCKET_ELEMENT, h.slots, SIZEOF_BUCKET_ELEMENT, h.blockSize)
  {
    hide Pow2;
  }

  /** What every header written by the program satisfies. */
  ghost predicate Acceptable(h: Header) {
    && (exists bits: nat :: LaidOut(h.blockSize, bits, h.slots, h.avail.size, h.extended) && bits <= h.dirBits)
    && h.dirBits <= MAX_DIR_BITS && h.dirSize == SIZEOF_OFF_T * Pow2(h.dirBits) && h.dirAdr > 0
  }

  lemma PowersOrdered(a: nat, b: nat)
    requires Pow2(a) < Pow2(b)
    ensures a < b
  {
    if b <= a {
      Pow2Monotonic(b, a);
    }
  }

  /** compute_directory_size finds the depth back from the size of the directory... */
  lemma BitsDetermined(h: Header, dirSize: nat, dirBits: nat)
    requires dirSize == SIZEOF_OFF_T * Pow2(dirBits) && 3 <= dirBits <= MAX_DIR_BITS
    requires Min(h.dirSize, MAX_DIR_HALF) <= dirSize && (dirBits > 3 ==> dirSize / 2 < Min(h.dirSize, MAX_DIR_HALF))
    ensures Acceptable(h) ==> dirBits == h.dirBits
  {
    if Acceptable(h) {
      hide Pow2;
      BigPowers();
      Pow2Monotonic(h.dirBits, 27);
      if h.dirBits < 27 {
        Pow2Monotonic(h.dirBits, 26);
        SameDepth(h.dirBits, dirBits);
      } else if dirBits < 27 {
        Pow2Monotonic(dirBits, 26);
      }
    }
  }

  lemma SameDepth(a: nat, b: nat)
    requires a >= 3 && Pow2(a) <= Pow2(b) && (b > 3 ==> Pow2(b) < 2 * Pow2(a)) && b >= 3
    ensures a == b
  {
    hide Pow2;
    Pow2Successor(a);
    if b > 3 {
      PowersOrdered(b, a + 1);
    }
    if b < a {
      Pow2Successor(b);
      Pow2Monotonic(b + 1, a);
    }
  }

  /** ...and does not ask for more than the directory had at first. */
  lemma SizeDetermined(h: Header, dirSize: nat, dirBits: nat)
    requires dirSize == SIZEOF_OFF_T * Pow2(dirBits) && 3 <= dirBits <= MAX_DIR_BITS
    requires Min(h.blockSize, MAX_DIR_HALF) <= dirSize && (dirBits > 3 ==> dirSize / 2 < Min(h.blockSize, MAX_DIR_HALF))
    ensures Acceptable(h) ==> dirSize <= h.dirSize
  {
    if Acceptable(h) {
      hide Pow2;
      var bits: nat :| LaidOut(h.blockSize, bits, h.slots, h.avail.size, h.extended) && bits <= h.dirBits;
      Pow2Monotonic(bits, h.dirBits);
      if dirBits > 3 && dirBits > bits {
        Pow2Successor(bits);
        Pow2Monotonic(bits + 1, dirBits);
      } else {
        Pow2Monotonic(dirBits, bits);
      }
    }
  }

  /** gdbm_open on the file a database has left after its last operation: it is opened, with the
      same contents, exactly when the directory is not the last thing in the file. */
  method Open(file: seq<Cell>, auto: bool, cacheBits: nat, coalesce: bool, centralFree: bool, ghost was: DatabaseFile)
    returns (rc: OpenStatus, db: DatabaseFile?)
    requires was.Clonable() && file == was.space.file && 2 <= cacheBits <= HASH_BITS
    ensures rc == Opened <==> was.dirAdr + |was.dir| * SIZEOF_OFF_T < |file|
    ensures rc in {Opened, BadHeader}
    ensures rc == Opened ==> db != null && fresh(db) && db.Valid() && db.data == was.data && db.slots == was.slots
    ensures rc == Opened ==> db.dir == was.dir && db.dirBits == was.dirBits && db.extended == was.extended
    ensures rc == Opened ==> db.cache.buckets == was.cache.buckets && !db.cache.orphaned && db.space.file == file
    ensures rc == Opened ==> db.cache.auto == auto && db.cache.bits == cacheBits
    ensures rc == Opened ==> db.space.coalesce == coalesce && db.space.centralFree == centralFree
  {
    hide DatabaseFile.Valid, ImageCells, HeaderHeld, DirHeld, TableValid, LaidOut;
    db := null;
    was.FileFacts();
    HeaderThere(file, was.CurrentHeader());
    DirThere(file, was.dirAdr, was.dir);
    if |file| == 0 || !file[0].Part? || !file[0].image.HeaderImage? {
      return NotADatabase, null;
    }
    var h := file[0].image.header;
    var tooLong;
    rc, tooLong := ValidateHeader(h, |file|);
    if rc != Opened {
      return;
    }
    if tooLong {
      assert false;
    }
    if ReadImage(file, 0, h.blockSize) != Some(HeaderImage(h)) {
      return NotADatabase, null;
    }
    CapacityFits(h);
    var availSize := h.blockSize - FixedSize(h.extended);
    if (availSize - SIZEOF_AVAIL_BLOCK) / SIZEOF_AVAIL_ELEM + 1 != h.avail.size {
      return BadHeader, null;
    }
    if !AvailBlockValid(h.avail, availSize, h.blockSize, h.nextBlock) {
      return BadAvail, null;
    }
    var d := ReadImage(file, h.dirAdr, h.dirSize);
    if d.None? || !d.value.DirImage? {
      return NotADatabase, null;
    }
    db := new DatabaseFile.Existing(file, h, d.value.dir, auto, cacheBits, coalesce, centralFree, was);
  }

  lemma HeaderThere(file: seq<Cell>, h: Header)
    requires HeaderHeld(file, h, h.blockSize) && h.blockSize > 0
    ensures |file| > 0 && file[0] == Part(HeaderImage(h), 0) && ReadImage(file, 0, h.blockSize) == Some(HeaderImage(h))
  {
    var c := ImageCells(HeaderImage(h), h.blockSize);
    assert c[0] == file[0..h.blockSize][0];
  }

  lemma DirThere(file: seq<Cell>, adr: nat, dir: seq<nat>)
    requires DirHeld(file, adr, dir) && |dir| > 0
    ensures ReadImage(file, adr, |dir| * SIZEOF_OFF_T) == Some(DirImage(dir))
  {
  }

  lemma CapacityFits(h: Header)
    requires Acceptable(h)
    ensures var availSize := h.blockSize - FixedSize(h.extended);
            availSize > SIZEOF_AVAIL_BLOCK
                && (availSize - SIZEOF_AVAIL_BLOCK) / SIZEOF_AVAIL_ELEM + 1 == h.avail.size > 1
  {
    hide Pow2;
  }
}

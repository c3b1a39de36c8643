/**
 On-disk structures (src/gdbmdefs.h, src/gdbmconst.h) and the database file itself.
 */
module Layout {
  import opened AvailTable

  type byte = b: int | 0 <= b < 256

  /** Bytes of the key kept inside a bucket element. */
  const SMALL: nat := 4

  /** Capacity of a bucket's own free table. */
  const BUCKET_AVAIL: nat := 6

  /** Width of a hash value. */
  const HASH_BITS: nat := 31

  const SIZEOF_OFF_T: nat := 8
  const SIZEOF_AVAIL_ELEM: nat := 16
  const SIZEOF_AVAIL_BLOCK: nat := 32
  const SIZEOF_BUCKET_ELEMENT: nat := 24
  const SIZEOF_HASH_BUCKET: nat := 136
  const AVAIL_TABLE_OFFSET: nat := 56

  /** Smallest block size a database is created with. */
  const MIN_BLOCK_SIZE: nat := 512

  /** A key and its value. */
  datatype Entry = Entry(key: seq<byte>, value: seq<byte>)

  /** One slot of a bucket's hash table; a hash value of -1 marks it empty. */
  datatype Slot =
    | Empty
    | Elem(hash: nat, keyStart: seq<byte>, ptr: nat, keySize: nat, dataSize: nat)

  datatype Bucket = Bucket(avail: seq<Avail>, bits: nat, count: nat, table: seq<Slot>)

  /** A spilled free table: `size` is the capacity to restore, `next` the block below it. */
  datatype AvailBlock = AvailBlock(size: nat, next: nat, table: seq<Avail>)

  /** `extended` stands for the magic number, which tells the two kinds of headers apart. */
  datatype Header = Header(extended: bool, blockSize: nat, dirAdr: nat, dirSize: nat, dirBits: nat, slots: nat,
                           nextBlock: nat, avail: AvailBlock)

  /** What a structure on disk can be. */
  datatype Image =
    | BucketImage(bucket: Bucket)
    | AvailImage(block: AvailBlock)
    | DirImage(dir: seq<nat>)
    | HeaderImage(header: Header)

  /** One byte of the file: a byte of user data, or byte `off` of a structure's memory image. */
  datatype Cell = Raw(b: byte) | Part(image: Image, off: nat)

  function ImageCells(image: Image, n: nat): (c: seq<Cell>)
    ensures |c| == n && forall i :: 0 <= i < n ==> c[i] == Part(image, i)
  {
    seq(n, i requires 0 <= i => Part(image, i))
  }

  function RawCells(s: seq<byte>): (c: seq<Cell>)
    ensures |c| == |s| && forall i :: 0 <= i < |s| ==> c[i] == Raw(s[i])
  {
    seq(|s|, i requires 0 <= i < |s| => Raw(s[i]))
  }

  /** The bytes of `n` raw cells; a cell of a structure reads as 0. */
  function RawBytes(c: seq<Cell>): (s: seq<byte>)
    ensures |s| == |c|
  {
    seq(|c|, i requires 0 <= i < |c| => if c[i].Raw? then c[i].b else 0)
  }

  lemma RawRoundTrip(s: seq<byte>)
    ensures RawBytes(RawCells(s)) == s
  {
  }

  /** The file has `c` at offset `a`. */
  ghost predicate Holds(f: seq<Cell>, a: nat, c: seq<Cell>) {
    a + |c| <= |f| && f[a..a + |c|] == c
  }

  /** write(2) at offset `a`: overwrites, growing the file with zeros when needed. */
  function Write(f: seq<Cell>, a: nat, c: seq<Cell>): (g: seq<Cell>)
    ensures |g| >= |f|
    ensures |c| > 0 ==> |g| >= a + |c|
    ensures forall x :: 0 <= x < |c| ==> g[a + x] == c[x]
    ensures forall x :: 0 <= x < |f| && !(a <= x < a + |c|) ==> g[x] == f[x]
    ensures Holds(g, a, c) || |c| == 0
  {
    if |c| == 0 then f
    else
      var end := a + |c|;
      var padded := if |f| < end then f + seq(end - |f|, _ => Raw(0)) else f;
      padded[..a] + c + padded[end..]
  }

  /** The bytes that a reader of `n` bytes at `a` gets. */
  function Read(f: seq<Cell>, a: nat, n: nat): (c: seq<Cell>)
    requires a + n <= |f| || n == 0
    ensures |c| == n
  {
    if n == 0 then [] else f[a..a + n]
  }

  datatype Option<+T> = None | Some(value: T)

  /** Reads a structure of `n` bytes back; None when the bytes are not one structure's image. */
  function ReadImage(f: seq<Cell>, a: nat, n: nat): (r: Option<Image>)
    requires n > 0
    ensures r.Some? ==> Holds(f, a, ImageCells(r.value, n))
    ensures forall image :: Holds(f, a, ImageCells(image, n)) ==> r == Some(image)
  {
    if a + n <= |f| && f[a].Part? && f[a..a + n] == ImageCells(f[a].image, n) then
      Some(f[a].image)
    else
      assert forall image :: ImageCells(image, n)[0] == Part(image, 0);
      None
  }

  /** gdbm_avail_table_valid_p: entries lie between the header block and the end of the space. */
  predicate TableValid(t: seq<Avail>, bucketSize: nat, nextBlock: nat) {
    forall i :: 0 <= i < |t| ==> bucketSize <= t[i].adr && t[i].adr + t[i].size <= nextBlock
  }

  /** Every byte that is listed is in the range, and so are the places of empty entries. */
  ghost predicate BytesWithin(t: seq<Avail>, lo: nat, hi: nat) {
    && (forall x: nat :: Cover(t, x) > 0 ==> lo <= x < hi)
    && (forall i :: 0 <= i < |t| && t[i].size == 0 ==> lo <= t[i].adr <= hi)
  }

  /** The validation of a table accepts it exactly if that is so. */
  lemma TableBytes(t: seq<Avail>, lo: nat, hi: nat)
    ensures TableValid(t, lo, hi) <==> BytesWithin(t, lo, hi)
  {
    hide Cover;
    if TableValid(t, lo, hi) {
      forall x: nat | Cover(t, x) > 0
        ensures lo <= x < hi
      {
        var i := CoverWitness(t, x);
      }
    }
    if BytesWithin(t, lo, hi) {
      forall i | 0 <= i < |t|
        ensures lo <= t[i].adr && t[i].adr + t[i].size <= hi
      {
        if t[i].size > 0 {
          CoverMember(t, i, t[i].adr);
          CoverMember(t, i, t[i].adr + t[i].size - 1);
        }
      }
    }
  }

  /** gdbm_avail_block_validate for a block of `size` bytes. */
  predicate AvailBlockValid(b: AvailBlock, size: nat, bucketSize: nat, nextBlock: nat) {
    && size > SIZEOF_AVAIL_BLOCK
    && b.size > 1 && |b.table| <= b.size
    && (size - SIZEOF_AVAIL_BLOCK) / SIZEOF_AVAIL_ELEM + 1 >= |b.table|
    && TableValid(b.table, bucketSize, nextBlock)
  }
}

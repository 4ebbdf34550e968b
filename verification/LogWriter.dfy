/** The framing of the write-ahead log and its writer (db/log_format.h; db/log_writer.cc lines 34-108): records cut
    into fragments that never cross a block boundary. */
module LogWriter {
  import opened Basics
  import opened Coding

  const BLOCK_SIZE: nat := 32768
  const HEADER_SIZE: nat := 7

  const ZERO_TYPE: Byte := 0
  const FULL_TYPE: Byte := 1
  const FIRST_TYPE: Byte := 2
  const MIDDLE_TYPE: Byte := 3
  const LAST_TYPE: Byte := 4

  /** crc32c, of which nothing is assumed. */
  type Checksum = Bytes -> U32

  /** A fragment of a record and the file offset its header starts at. */
  datatype Piece = Piece(start: nat, kind: Byte, payload: Bytes) {
    function End(): nat { start + HEADER_SIZE + |payload| }
    function Block(): nat { start / BLOCK_SIZE }
  }

  /** Header and payload as they stand in the file. */
  function Physical(crc: Checksum, kind: Byte, payload: Bytes): (r: Bytes)
    ensures |r| == HEADER_SIZE + |payload|
  {
    Fixed32(Mask(crc([kind] + payload))) + [|payload| % 256, |payload| / 256 % 256, kind] + payload
  }

  /** The first offset at or after `pos` with room for a header in its block. */
  function Aligned(pos: nat): (r: nat)
    ensures pos <= r < pos + HEADER_SIZE && BLOCK_SIZE - r % BLOCK_SIZE >= HEADER_SIZE
    ensures BLOCK_SIZE - pos % BLOCK_SIZE >= HEADER_SIZE ==> r == pos
    ensures r != pos ==> r % BLOCK_SIZE == 0
  {
    var leftover := BLOCK_SIZE - pos % BLOCK_SIZE;
    if leftover < HEADER_SIZE then
      assert (pos + leftover) % BLOCK_SIZE == 0 by { NextBlock(pos); }
      pos + leftover
    else pos
  }

  lemma NextBlock(pos: nat)
    ensures pos + (BLOCK_SIZE - pos % BLOCK_SIZE) == (pos / BLOCK_SIZE + 1) * BLOCK_SIZE
    ensures (pos + (BLOCK_SIZE - pos % BLOCK_SIZE)) % BLOCK_SIZE == 0
  {
  }

  function KindOf(begin: bool, end: bool): Byte {
    if begin && end then FULL_TYPE
    else if begin then FIRST_TYPE
    else if end then LAST_TYPE
    else MIDDLE_TYPE
  }

  /** How much of `left` fits into the block that `pos` leads to. */
  function FragmentLength(pos: nat, left: Bytes): (n: nat)
    ensures n <= |left| && Aligned(pos) % BLOCK_SIZE + HEADER_SIZE + n <= BLOCK_SIZE
    ensures n < |left| ==> Aligned(pos) % BLOCK_SIZE + HEADER_SIZE + n == BLOCK_SIZE
  {
    var avail := BLOCK_SIZE - Aligned(pos) % BLOCK_SIZE - HEADER_SIZE;
    if |left| < avail then |left| else avail
  }

  /** A fragment that does not end its record fills its block. */
  lemma FullBlock(pos: nat, left: Bytes)
    requires FragmentLength(pos, left) < |left|
    ensures var end := Aligned(pos) + HEADER_SIZE + FragmentLength(pos, left);
      end % BLOCK_SIZE == 0 && end == (Aligned(pos) / BLOCK_SIZE + 1) * BLOCK_SIZE && Aligned(end) == end
  {
    NextBlock(Aligned(pos));
  }

  /** The fragments a record (or, without `begin`, the rest of one) is cut into when written at `pos`. */
  function Pieces(pos: nat, left: Bytes, begin: bool): (r: seq<Piece>)
    ensures |r| > 0
    decreases |left|, BLOCK_SIZE - Aligned(pos) % BLOCK_SIZE == HEADER_SIZE
  {
    var n := FragmentLength(pos, left);
    var piece := Piece(Aligned(pos), KindOf(begin, n == |left|), left[..n]);
    if n == |left| then [piece]
    else
      FullBlock(pos, left);
      [piece] + Pieces(piece.End(), left[n..], false)
  }

  function LastEnd(pos: nat, ps: seq<Piece>): nat {
    if ps == [] then pos else ps[|ps| - 1].End()
  }

  /** Fragments after one another, each block's unused tail filled with zeros. */
  ghost predicate Chained(pos: nat, ps: seq<Piece>)
    decreases |ps|
  {
    ps != [] ==>
      && ps[0].start == Aligned(pos)
      && FULL_TYPE <= ps[0].kind <= LAST_TYPE
      && ps[0].start % BLOCK_SIZE + HEADER_SIZE + |ps[0].payload| <= BLOCK_SIZE
      && Chained(ps[0].End(), ps[1..])
  }

  /** The bytes of a chain of fragments written from `pos` on. */
  function Render(crc: Checksum, pos: nat, ps: seq<Piece>): Bytes
    requires Chained(pos, ps)
    decreases |ps|
  {
    if ps == [] then []
    else Zeros(ps[0].start - pos) + Physical(crc, ps[0].kind, ps[0].payload) + Render(crc, ps[0].End(), ps[1..])
  }

  lemma {:induction false} PiecesChained(pos: nat, left: Bytes, begin: bool)
    ensures Chained(pos, Pieces(pos, left, begin))
    decreases |left|, BLOCK_SIZE - Aligned(pos) % BLOCK_SIZE == HEADER_SIZE
  {
    hide Aligned;
    var n := FragmentLength(pos, left);
    var ps := Pieces(pos, left, begin);
    if n < |left| {
      FullBlock(pos, left);
      PiecesChained(ps[0].End(), left[n..], false);
      assert ps[1..] == Pieces(ps[0].End(), left[n..], false);
    }
  }

  lemma Regroup(a: Bytes, b: Bytes, c: Bytes, d: Bytes)
    ensures a + (b + c + d) == (a + b + c) + d
  {
  }

  lemma RenderStep(crc: Checksum, dest: Bytes, ps: seq<Piece>)
    requires ps != [] && Chained(|dest|, ps)
    ensures var after := dest + Zeros(ps[0].start - |dest|) + Physical(crc, ps[0].kind, ps[0].payload);
      && |after| == ps[0].End()
      && Chained(|after|, ps[1..])
      && after + Render(crc, |after|, ps[1..]) == dest + Render(crc, |dest|, ps)
  {
    hide Physical, Aligned, Zeros;
    var pad, physical := Zeros(ps[0].start - |dest|), Physical(crc, ps[0].kind, ps[0].payload);
    Regroup(dest, pad, physical, Render(crc, ps[0].End(), ps[1..]));
  }

  lemma {:induction false} RenderLength(crc: Checksum, pos: nat, ps: seq<Piece>)
    requires Chained(pos, ps)
    ensures pos + |Render(crc, pos, ps)| == LastEnd(pos, ps)
    decreases |ps|
  {
    hide Physical, Aligned;
    if ps != [] { RenderLength(crc, ps[0].End(), ps[1..]); }
  }

  /** The file writer: `dest` is the whole file. Appending always succeeds. */
  class Writer {
    const crc: Checksum
    var dest: Bytes
    var blockOffset: nat

    ghost predicate Valid()
      reads this
    {
      blockOffset <= BLOCK_SIZE && blockOffset % BLOCK_SIZE == |dest| % BLOCK_SIZE
    }

    constructor (crc: Checksum, dest: Bytes)
      ensures Valid() && this.crc == crc && this.dest == dest
    {
      this.crc, this.dest := crc, dest;
      blockOffset := |dest| % BLOCK_SIZE;
    }

    method AddRecord(record: Bytes)
      requires Valid()
      modifies this
      ensures Valid() && Chained(old(|dest|), Pieces(old(|dest|), record, true))
      ensures dest == old(dest) + Render(crc, old(|dest|), Pieces(old(|dest|), record, true))
    {
      hide Pieces, Aligned, Chained, Render, Physical;
      ghost var pos, was := |dest|, dest;
      ghost var ps, all := Pieces(pos, record, true), Pieces(pos, record, true);
      PiecesChained(pos, record, true);
      var left, begin, more := record, true, true;
      while more
        invariant Valid() && Chained(pos, all) && Chained(|dest|, ps)
        invariant ps == if more then Pieces(|dest|, left, begin) else []
        invariant dest + Render(crc, |dest|, ps) == was + Render(crc, pos, all)
        decreases |ps|
      {
        NextPiece(|dest|, left, begin);
        RenderStep(crc, dest, ps);
        ghost var next := ps[1..];
        SwitchBlock();
        var avail := BLOCK_SIZE - blockOffset - HEADER_SIZE;
        var fragmentLength := if |left| < avail then |left| else avail;
        var end := |left| == fragmentLength;
        EmitPhysicalRecord(KindOf(begin, end), left[..fragmentLength]);
        left := left[fragmentLength..];
        begin := false;
        more := |left| > 0;
        ps := next;
      }
      RenderNone(crc, |dest|);
    }

    /** Fills the tail of a block too short for a header. */
    method SwitchBlock()
      requires Valid()
      modifies this
      ensures Valid() && BLOCK_SIZE - blockOffset >= HEADER_SIZE && blockOffset == |dest| % BLOCK_SIZE
      ensures |dest| == Aligned(old(|dest|)) && dest == old(dest) + Zeros(Aligned(old(|dest|)) - old(|dest|))
    {
      var leftover := BLOCK_SIZE - blockOffset;
      if leftover < HEADER_SIZE {
        if leftover > 0 {
          dest := dest + Zeros(leftover);
        }
        blockOffset := 0;
      }
    }

    method EmitPhysicalRecord(kind: Byte, payload: Bytes)
      requires Valid() && blockOffset + HEADER_SIZE + |payload| <= BLOCK_SIZE
      modifies this
      ensures Valid() && dest == old(dest) + Physical(crc, kind, payload)
    {
      hide Physical;
      dest := dest + Physical(crc, kind, payload);
      blockOffset := blockOffset + HEADER_SIZE + |payload|;
    }
  }

  lemma NextPiece(pos: nat, left: Bytes, begin: bool)
    ensures var n, ps := FragmentLength(pos, left), Pieces(pos, left, begin);
      && ps[0] == Piece(Aligned(pos), KindOf(begin, n == |left|), left[..n])
      && ps[1..] == if n < |left| then Pieces(ps[0].End(), left[n..], false) else []
  {
  }

  lemma RenderNone(crc: Checksum, pos: nat)
    ensures Chained(pos, []) && Render(crc, pos, []) == []
  {
  }
}

/** What a reader gets back of a written log: everything; a prefix, without any report, when the file is cut short
    anywhere; and, when whole blocks are damaged, exactly the records that have no fragment in one of those blocks,
    whatever the reader had gathered when it came upon them. */
module LogRecovery {
  import opened Basics
  import opened Coding
  import opened LogWriter
  import opened LogReader

  /** The fragments of records written one after another. */
  function AllPieces(pos: nat, records: seq<Bytes>): seq<Piece>
    decreases |records|
  {
    if records == [] then []
    else
      var ps := Pieces(pos, records[0], true);
      ps + AllPieces(LastEnd(pos, ps), records[1..])
  }

  /** The log file holding these records. */
  ghost function LogFile(crc: Checksum, records: seq<Bytes>): Bytes {
    AllChained(0, records);
    Render(crc, 0, AllPieces(0, records))
  }

  // ---------- the written file ----------

  lemma {:induction false} ChainAppend(pos: nat, ps: seq<Piece>, qs: seq<Piece>)
    requires Chained(pos, ps) && Chained(LastEnd(pos, ps), qs)
    ensures Chained(pos, ps + qs)
    decreases |ps|
  {
    if ps == [] {
      assert ps + qs == qs;
    } else {
      var all := ps + qs;
      assert all[0] == ps[0] && all[1..] == ps[1..] + qs;
      assert LastEnd(ps[0].End(), ps[1..]) == LastEnd(pos, ps);
      ChainAppend(ps[0].End(), ps[1..], qs);
    }
  }

  lemma {:induction false} AllChained(pos: nat, records: seq<Bytes>)
    ensures Chained(pos, AllPieces(pos, records))
    decreases |records|
  {
    if records != [] {
      var ps := Pieces(pos, records[0], true);
      PiecesChained(pos, records[0], true);
      AllChained(LastEnd(pos, ps), records[1..]);
      ChainAppend(pos, ps, AllPieces(LastEnd(pos, ps), records[1..]));
    }
  }

  /** One fragment with the padding before it. */
  ghost function Framed(crc: Checksum, pos: nat, p: Piece): Bytes
    requires pos <= p.start
  {
    Zeros(p.start - pos) + Physical(crc, p.kind, p.payload)
  }

  lemma RenderUnfold(crc: Checksum, pos: nat, ps: seq<Piece>)
    requires ps != [] && Chained(pos, ps)
    ensures Render(crc, pos, ps) == Framed(crc, pos, ps[0]) + Render(crc, ps[0].End(), ps[1..])
  {
  }

  lemma LastEndStep(pos: nat, ps: seq<Piece>)
    requires ps != []
    ensures LastEnd(ps[0].End(), ps[1..]) == LastEnd(pos, ps)
  {
  }

  lemma {:induction false} RenderAppend(crc: Checksum, pos: nat, ps: seq<Piece>, qs: seq<Piece>)
    requires Chained(pos, ps) && Chained(LastEnd(pos, ps), qs) && Chained(pos, ps + qs)
    ensures Render(crc, pos, ps + qs) == Render(crc, pos, ps) + Render(crc, LastEnd(pos, ps), qs)
    decreases |ps|
  {
    if ps == [] {
      assert ps + qs == qs;
    } else {
      hide Render, Framed, LastEnd;
      assert (ps + qs)[0] == ps[0] && (ps + qs)[1..] == ps[1..] + qs;
      LastEndStep(pos, ps);
      RenderAppend(crc, ps[0].End(), ps[1..], qs);
      RenderUnfold(crc, pos, ps);
      RenderUnfold(crc, pos, ps + qs);
      Associate(Framed(crc, pos, ps[0]), Render(crc, ps[0].End(), ps[1..]), Render(crc, LastEnd(pos, ps), qs));
    }
  }

  lemma {:induction false} AllPiecesSnoc(pos: nat, records: seq<Bytes>, r: Bytes)
    ensures AllPieces(pos, records + [r])
      == AllPieces(pos, records) + Pieces(LastEnd(pos, AllPieces(pos, records)), r, true)
    decreases |records|
  {
    if records == [] {
      assert (records + [r])[1..] == [];
    } else {
      var ps := Pieces(pos, records[0], true);
      var rest := AllPieces(LastEnd(pos, ps), records[1..]);
      assert (records + [r])[1..] == records[1..] + [r];
      AllPiecesSnoc(LastEnd(pos, ps), records[1..], r);
      assert LastEnd(LastEnd(pos, ps), rest) == LastEnd(pos, ps + rest);
      Associate(ps, rest, Pieces(LastEnd(pos, ps + rest), r, true));
    }
  }

  /** AddRecord turns the log of some records into the log of one more. */
  lemma LogFileGrows(crc: Checksum, records: seq<Bytes>, r: Bytes)
    ensures var f := LogFile(crc, records);
      Chained(|f|, Pieces(|f|, r, true)) && LogFile(crc, records + [r]) == f + Render(crc, |f|, Pieces(|f|, r, true))
  {
    var ps := AllPieces(0, records);
    var f := LogFile(crc, records);
    AllChained(0, records);
    RenderLength(crc, 0, ps);
    PiecesChained(|f|, r, true);
    AllPiecesSnoc(0, records, r);
    AllChained(0, records + [r]);
    RenderAppend(crc, 0, ps, Pieces(|f|, r, true));
  }

  // ---------- parsing a chain of fragments ----------

  lemma KindPayloadBytes(crc: Checksum, kind: Byte, payload: Bytes, tail: Bytes)
    ensures var b := Physical(crc, kind, payload) + tail;
      && b[..4] == Fixed32(Mask(crc([kind] + payload)))
      && b[4] == |payload| % 256 && b[5] == |payload| / 256 % 256 && b[6] == kind
      && b[7..7 + |payload|] == payload && b[6..7 + |payload|] == [kind] + payload && b[7 + |payload|..] == tail
  {
  }

  /** A fragment reads back as itself. */
  lemma HeaderOfPhysical(crc: Checksum, checksum: bool, kind: Byte, payload: Bytes, tail: Bytes, eof: bool)
    requires |payload| <= BLOCK_SIZE && kind != ZERO_TYPE
    ensures var b := Physical(crc, kind, payload) + tail;
      Header(crc, checksum, b, eof) == Rec(kind, payload) && b[7 + |payload|..] == tail
  {
    hide Physical, Mask, Unmask, Fixed32, UnFixed32;
    KindPayloadBytes(crc, kind, payload, tail);
    UnmaskMask(crc([kind] + payload));
    Fixed32RoundTrip(Mask(crc([kind] + payload)));
    assert |payload| % 256 + 256 * (|payload| / 256 % 256) == |payload|;
  }

  /** A fragment cut short, at the end of the file, reads as the end of the file. */
  lemma HeaderOfTorn(crc: Checksum, checksum: bool, kind: Byte, payload: Bytes, n: nat)
    requires |payload| <= BLOCK_SIZE && HEADER_SIZE <= n < HEADER_SIZE + |payload|
    ensures Header(crc, checksum, Physical(crc, kind, payload)[..n], true) == Eof
  {
    hide Physical;
    KindPayloadBytes(crc, kind, payload, []);
    var b := Physical(crc, kind, payload);
    assert b + [] == b;
    assert b[..n][4] == b[4] && b[..n][5] == b[5];
    assert |payload| % 256 + 256 * (|payload| / 256 % 256) == |payload|;
  }

  // ---------- a file that was cut short or damaged ----------

  /** The reader's buffer ends where block `m` starts, or where the file ends. */
  function BlockEnd(n: nat, m: nat): (e: nat)
    ensures e <= n
  {
    if m * BLOCK_SIZE <= n then m * BLOCK_SIZE else n
  }

  /** What is still to come at `pos` when the blocks before `m` have been read in. */
  ghost function ParseAt(crc: Checksum, checksum: bool, g: Bytes, pos: nat, m: nat): seq<Phys>
    requires pos <= BlockEnd(|g|, m)
  {
    Parse(crc, checksum, g[pos..BlockEnd(|g|, m)], g[BlockEnd(|g|, m)..], |g| < m * BLOCK_SIZE)
  }

  /** Block `k` is whole and its first header is refused. */
  ghost predicate Rejected(crc: Checksum, checksum: bool, g: Bytes, k: nat) {
    && (k + 1) * BLOCK_SIZE <= |g|
    && Header(crc, checksum, g[k * BLOCK_SIZE..(k + 1) * BLOCK_SIZE], false).Bad?
  }

  /** `g` is `f` cut short, with the blocks of `damaged` replaced by ones that are refused. */
  ghost predicate Damage(crc: Checksum, checksum: bool, f: Bytes, g: Bytes, damaged: set<nat>) {
    && |g| <= |f|
    && (forall k :: k in damaged ==> Rejected(crc, checksum, g, k))
    && (forall i :: 0 <= i < |g| && i / BLOCK_SIZE !in damaged ==> g[i] == f[i])
  }

  /** What reading `g` yields in place of the fragments `ps`. */
  ghost function PhysOf(crc: Checksum, checksum: bool, g: Bytes, damaged: set<nat>, ps: seq<Piece>): seq<Phys>
    requires forall k :: k in damaged ==> Rejected(crc, checksum, g, k)
    decreases |ps|
  {
    if ps == [] || ps[0].End() > |g| then []
    else PhysOfOne(crc, checksum, g, damaged, ps[0]) + PhysOf(crc, checksum, g, damaged, ps[1..])
  }

  /** A damaged block yields its refusal once, in place of its first fragment. */
  ghost function PhysOfOne(crc: Checksum, checksum: bool, g: Bytes, damaged: set<nat>, p: Piece): seq<Phys>
    requires forall k :: k in damaged ==> Rejected(crc, checksum, g, k)
  {
    var k := p.Block();
    if k !in damaged then [Rec(p.kind, p.payload)]
    else if p.start % BLOCK_SIZE == 0 then
      assert Rejected(crc, checksum, g, k);
      [Header(crc, checksum, g[k * BLOCK_SIZE..(k + 1) * BLOCK_SIZE], false)]
    else []
  }

  lemma ReadOn(crc: Checksum, checksum: bool, g: Bytes, pos: nat, m: nat)
    requires pos <= m * BLOCK_SIZE <= |g| && m * BLOCK_SIZE - pos < HEADER_SIZE
    ensures ParseAt(crc, checksum, g, pos, m) == ParseAt(crc, checksum, g, m * BLOCK_SIZE, m + 1)
  {
    var e := m * BLOCK_SIZE;
    var rest := g[e..];
    assert rest[..ReadSize(rest)] == g[e..BlockEnd(|g|, m + 1)];
    assert rest[ReadSize(rest)..] == g[BlockEnd(|g|, m + 1)..];
  }

  lemma NothingLeft(crc: Checksum, checksum: bool, g: Bytes, pos: nat, m: nat)
    requires pos <= |g| < m * BLOCK_SIZE && |g| - pos < HEADER_SIZE
    ensures ParseAt(crc, checksum, g, pos, m) == []
  {
  }

  lemma WholePiece(crc: Checksum, checksum: bool, g: Bytes, p: Piece)
    requires p.End() <= |g| && p.start % BLOCK_SIZE + HEADER_SIZE + |p.payload| <= BLOCK_SIZE && p.kind != ZERO_TYPE
    requires g[p.start..p.End()] == Physical(crc, p.kind, p.payload)
    ensures p.End() <= (p.Block() + 1) * BLOCK_SIZE
    ensures ParseAt(crc, checksum, g, p.start, p.Block() + 1)
      == [Rec(p.kind, p.payload)] + ParseAt(crc, checksum, g, p.End(), p.Block() + 1)
  {
    hide Physical, Header;
    var e := BlockEnd(|g|, p.Block() + 1);
    var tail := g[p.End()..e];
    assert g[p.start..e] == Physical(crc, p.kind, p.payload) + tail;
    HeaderOfPhysical(crc, checksum, p.kind, p.payload, tail, |g| < (p.Block() + 1) * BLOCK_SIZE);
  }

  lemma TornPiece(crc: Checksum, checksum: bool, g: Bytes, p: Piece)
    requires p.start <= |g| < p.End() && p.start % BLOCK_SIZE + HEADER_SIZE + |p.payload| <= BLOCK_SIZE
    requires g[p.start..] == Physical(crc, p.kind, p.payload)[..|g| - p.start]
    ensures ParseAt(crc, checksum, g, p.start, p.Block() + 1) == []
  {
    hide Physical, Header;
    var e := BlockEnd(|g|, p.Block() + 1);
    assert e == |g| && g[p.start..e] == g[p.start..];
    if |g| - p.start >= HEADER_SIZE {
      HeaderOfTorn(crc, checksum, p.kind, p.payload, |g| - p.start);
    }
  }

  lemma RefusedBlock(crc: Checksum, checksum: bool, g: Bytes, k: nat)
    requires Rejected(crc, checksum, g, k)
    ensures ParseAt(crc, checksum, g, k * BLOCK_SIZE, k + 1)
      == [Header(crc, checksum, g[k * BLOCK_SIZE..(k + 1) * BLOCK_SIZE], false)]
         + ParseAt(crc, checksum, g, (k + 1) * BLOCK_SIZE, k + 1)
  {
    hide Header;
    var e := (k + 1) * BLOCK_SIZE;
    assert g[e..e] == [];
  }

  /** The reader stands where the next fragment was written after `q`, or has skipped the damaged block around `q`. */
  ghost predicate ReaderAt(n: nat, damaged: set<nat>, q: nat, pos: nat, m: nat) {
    && pos <= BlockEnd(n, m)
    && m * BLOCK_SIZE <= pos + BLOCK_SIZE
    && (|| (q == pos && (pos == m * BLOCK_SIZE || m - 1 !in damaged))
        || (pos == m * BLOCK_SIZE && m - 1 in damaged && pos < q + BLOCK_SIZE && q <= pos))
  }

  /** The bytes of an undamaged fragment survive as far as the file goes. */
  lemma PieceBytes(crc: Checksum, checksum: bool, f: Bytes, g: Bytes, damaged: set<nat>, q: nat, ps: seq<Piece>)
    requires Damage(crc, checksum, f, g, damaged) && ps != [] && Chained(q, ps)
    requires q <= |f| && f[q..] == Render(crc, q, ps)
    ensures ps[0].End() <= |f| && f[ps[0].End()..] == Render(crc, ps[0].End(), ps[1..])
    ensures ps[0].Block() !in damaged && ps[0].End() <= |g| ==>
      g[ps[0].start..ps[0].End()] == Physical(crc, ps[0].kind, ps[0].payload)
    ensures ps[0].Block() !in damaged && ps[0].start <= |g| < ps[0].End()
      ==> g[ps[0].start..] == Physical(crc, ps[0].kind, ps[0].payload)[..|g| - ps[0].start]
  {
    hide Physical, Aligned, Rejected;
    var p := ps[0];
    var pad, body := Zeros(p.start - q), Physical(crc, p.kind, p.payload);
    var tail := Render(crc, p.End(), ps[1..]);
    assert f[q..] == pad + body + tail;
    assert |f| == p.End() + |tail|;
    forall i | p.start <= i < p.End() ensures f[i] == body[i - p.start] && i / BLOCK_SIZE == p.Block() {
      assert f[i] == f[q..][i - q];
    }
    assert f[p.End()..] == f[q..][p.End() - q..];
  }

  /** Where the next fragment's block is not read in yet, the reader goes on to it, if the file does. */
  lemma EnterBlock(crc: Checksum, checksum: bool, g: Bytes, damaged: set<nat>, q: nat, pos: nat, m: nat, p: Piece)
    requires ReaderAt(|g|, damaged, q, pos, m) && p.start == Aligned(q) && p.Block() != m - 1
    requires forall k :: k in damaged ==> Rejected(crc, checksum, g, k)
    ensures p.start == m * BLOCK_SIZE && p.Block() == m
    ensures if m * BLOCK_SIZE <= |g| then ParseAt(crc, checksum, g, pos, m) == ParseAt(crc, checksum, g, p.start, m + 1)
      else ParseAt(crc, checksum, g, pos, m) == []
  {
    hide Rejected, Parse;
    assert m - 1 in damaged && pos == m * BLOCK_SIZE ==> m * BLOCK_SIZE <= |g|;
    if m * BLOCK_SIZE <= |g| {
      ReadOn(crc, checksum, g, pos, m);
    } else {
      NothingLeft(crc, checksum, g, pos, m);
    }
  }

  /** Reading a damaged file yields what is left of the fragments written to it. */
  lemma {:induction false} ParseChain(crc: Checksum, checksum: bool, f: Bytes, g: Bytes, damaged: set<nat>,
                                      q: nat, pos: nat, m: nat, ps: seq<Piece>)
    requires Damage(crc, checksum, f, g, damaged) && Chained(q, ps)
    requires q <= |f| && f[q..] == Render(crc, q, ps)
    requires ReaderAt(|g|, damaged, q, pos, m)
    ensures ParseAt(crc, checksum, g, pos, m) == PhysOf(crc, checksum, g, damaged, ps)
    decreases |ps|
  {
    hide Parse, Header, Physical, Render, ParseAt, Rejected;
    if ps == [] {
      assert f[q..] == [] by { RenderNone(crc, q); }
      if m * BLOCK_SIZE <= |g| {
        ReadOn(crc, checksum, g, pos, m);
        NothingLeft(crc, checksum, g, m * BLOCK_SIZE, m + 1);
      } else {
        NothingLeft(crc, checksum, g, pos, m);
      }
    } else {
      var p := ps[0];
      PieceBytes(crc, checksum, f, g, damaged, q, ps);
      if p.Block() == m - 1 && p.Block() in damaged {
        // already refused together with the fragments before it
        assert p.End() <= |g| by { WholeBlock(crc, checksum, g, m - 1); }
        ParseChain(crc, checksum, f, g, damaged, p.End(), pos, m, ps[1..]);
      } else {
        if p.Block() != m - 1 {
          EnterBlock(crc, checksum, g, damaged, q, pos, m, p);
        }
        if p.start <= |g| {
          assert Aligned(p.start) == p.start;
          InBlock(crc, checksum, f, g, damaged, ps);
        }
      }
    }
  }

  lemma WholeBlock(crc: Checksum, checksum: bool, g: Bytes, k: nat)
    requires Rejected(crc, checksum, g, k)
    ensures (k + 1) * BLOCK_SIZE <= |g|
  {
  }

  /** The block of the next fragment is read in and the reader stands at that fragment. */
  lemma {:induction false} InBlock(crc: Checksum, checksum: bool, f: Bytes, g: Bytes, damaged: set<nat>, ps: seq<Piece>)
    requires Damage(crc, checksum, f, g, damaged) && ps != []
    requires Chained(Aligned(ps[0].start), ps) && ps[0].start <= |g|
    requires ps[0].End() <= |f| && f[ps[0].End()..] == Render(crc, ps[0].End(), ps[1..])
    requires ps[0].Block() in damaged ==> ps[0].start % BLOCK_SIZE == 0
    requires ps[0].Block() !in damaged && ps[0].End() <= |g| ==>
      g[ps[0].start..ps[0].End()] == Physical(crc, ps[0].kind, ps[0].payload)
    requires ps[0].Block() !in damaged && ps[0].start <= |g| < ps[0].End()
      ==> g[ps[0].start..] == Physical(crc, ps[0].kind, ps[0].payload)[..|g| - ps[0].start]
    ensures ParseAt(crc, checksum, g, ps[0].start, ps[0].Block() + 1) == PhysOf(crc, checksum, g, damaged, ps)
    decreases |ps|, 0
  {
    hide Parse, Header, Physical, Render, ParseAt, Rejected;
    var p := ps[0];
    if p.Block() in damaged {
      WholeBlock(crc, checksum, g, p.Block());
      RefusedBlock(crc, checksum, g, p.Block());
      ParseChain(crc, checksum, f, g, damaged, p.End(), (p.Block() + 1) * BLOCK_SIZE, p.Block() + 1, ps[1..]);
    } else if p.End() <= |g| {
      WholePiece(crc, checksum, g, p);
      ParseChain(crc, checksum, f, g, damaged, p.End(), p.End(), p.Block() + 1, ps[1..]);
    } else {
      TornPiece(crc, checksum, g, p);
    }
  }

  // ---------- from fragments to records ----------

  ghost predicate Intact(ps: seq<Piece>, damaged: set<nat>) {
    forall i :: 0 <= i < |ps| ==> ps[i].Block() !in damaged
  }

  function Prepend(record: Option<Bytes>, others: seq<Bytes>): seq<Bytes> {
    if record.Some? then [record.value] + others else others
  }

  /** One fragment or refusal ahead of others. */
  lemma TakeStep(first: Phys, others: seq<Phys>, inFragment: bool, scratch: Bytes)
    requires !Stops(first)
    ensures var t := Take(first, inFragment, scratch);
      && Gots(Assemble([first] + others, inFragment, scratch))
         == Prepend(t.record, Gots(Assemble(others, t.inFragment, t.scratch)))
      && Drops(Assemble([first] + others, inFragment, scratch)) ==
        t.told + Drops(Assemble(others, t.inFragment, t.scratch))
  {
    hide Gots, Drops, Stops, Take, GotOf, OnlyDrops;
    var t := Take(first, inFragment, scratch);
    var after := Assemble(others, t.inFragment, t.scratch);
    assert ([first] + others)[1..] == others;
    assert Assemble([first] + others, inFragment, scratch) == t.told + GotOf(t.record) + after;
    Associate(t.told, GotOf(t.record), after);
    ToldOnlyDrops(first, inFragment, scratch);
    DropsOnly(t.told);
    GotsAppend(t.told, GotOf(t.record) + after);
    DropsAppend(t.told, GotOf(t.record) + after);
    GotsOfGot(t.record, after);
  }

  lemma ToldOnlyDrops(ph: Phys, inFragment: bool, scratch: Bytes)
    ensures OnlyDrops(Take(ph, inFragment, scratch).told)
  {
  }

  lemma GotsOfGot(record: Option<Bytes>, after: seq<Event>)
    ensures Gots(GotOf(record) + after) == Prepend(record, Gots(after)) && Drops(GotOf(record) + after) == Drops(after)
  {
    if record.Some? {
      GotFirst(record.value, after);
    } else {
      assert GotOf(record) + after == after;
    }
  }

  /** The events a damaged file gives in place of some fragments. */
  ghost function EventsOf(crc: Checksum, checksum: bool, g: Bytes, damaged: set<nat>, ps: seq<Piece>,
                          inFragment: bool, scratch: Bytes): seq<Event>
    requires forall k :: k in damaged ==> Rejected(crc, checksum, g, k)
  {
    Assemble(PhysOf(crc, checksum, g, damaged, ps), inFragment, scratch)
  }

  lemma EventsStep(crc: Checksum, checksum: bool, g: Bytes, damaged: set<nat>, p: Piece, others: seq<Piece>,
                   inFragment: bool, scratch: Bytes)
    requires forall k :: k in damaged ==> Rejected(crc, checksum, g, k)
    requires FULL_TYPE <= p.kind <= LAST_TYPE && p.End() <= |g|
    requires !inFragment ==> scratch == []
    requires p.Block() in damaged && p.start % BLOCK_SIZE != 0 ==> !inFragment
    ensures var t := if p.Block() in damaged then Step([], None, false, [])
      else Take(Rec(p.kind, p.payload), inFragment, scratch);
      && Gots(EventsOf(crc, checksum, g, damaged, [p] + others, inFragment, scratch))
         == Prepend(t.record, Gots(EventsOf(crc, checksum, g, damaged, others, t.inFragment, t.scratch)))
      && (p.Block() !in damaged ==>
            Drops(EventsOf(crc, checksum, g, damaged, [p] + others, inFragment, scratch))
            == t.told + Drops(EventsOf(crc, checksum, g, damaged, others, t.inFragment, t.scratch)))
  {
    hide Gots, Drops, Assemble, Header;
    var one := PhysOfOne(crc, checksum, g, damaged, p);
    assert ([p] + others)[1..] == others;
    if one != [] {
      TakeStep(one[0], PhysOf(crc, checksum, g, damaged, others), inFragment, scratch);
    } else {
      assert one + PhysOf(crc, checksum, g, damaged, others) == PhysOf(crc, checksum, g, damaged, others);
    }
  }

  lemma TornEvents(
      crc: Checksum, checksum: bool, g: Bytes, damaged: set<nat>, ps: seq<Piece>, inFragment: bool, scratch: Bytes)
    requires forall k :: k in damaged ==> Rejected(crc, checksum, g, k)
    requires ps != [] && ps[0].End() > |g|
    ensures Gots(EventsOf(crc, checksum, g, damaged, ps, inFragment, scratch)) == []
    ensures Drops(EventsOf(crc, checksum, g, damaged, ps, inFragment, scratch)) == []
  {
  }

  /** The fragments of one record, when something of it may have been gathered already: the record comes back exactly
      if all its fragments are whole. */
  lemma {:induction false} RecordEvents(crc: Checksum, checksum: bool, g: Bytes, damaged: set<nat>, pos: nat,
                                        left: Bytes, begin: bool, others: seq<Piece>, inFragment: bool, scratch: Bytes)
    requires forall k :: k in damaged ==> Rejected(crc, checksum, g, k)
    requires if begin then !inFragment else Aligned(pos) % BLOCK_SIZE == 0
    requires !inFragment ==> scratch == []
    ensures var ps := Pieces(pos, left, begin);
      var events := EventsOf(crc, checksum, g, damaged, ps + others, inFragment, scratch);
      var rest := EventsOf(crc, checksum, g, damaged, others, false, []);
      && (LastEnd(pos, ps) > |g| ==> Gots(events) == [])
      && (LastEnd(pos, ps) <= |g| ==>
            Gots(events) ==
              Prepend(if Intact(ps, damaged) && (begin || inFragment) then Some(scratch + left) else None, Gots(rest)))
      && (damaged == {} && (begin || inFragment) ==>
        Drops(events) == if LastEnd(pos, ps) <= |g| then Drops(rest) else [])
    decreases |left|, BLOCK_SIZE - Aligned(pos) % BLOCK_SIZE == HEADER_SIZE
  {
    hide Aligned, Rejected, Gots, Drops, Pieces, EventsOf, Intact;
    var n, ps := FragmentLength(pos, left), Pieces(pos, left, begin);
    var p := ps[0];
    NextPiece(pos, left, begin);
    assert ps + others == [p] + (ps[1..] + others);
    if p.End() > |g| {
      PiecesChained(pos, left, begin);
      ChainEnd(pos, ps);
      TornEvents(crc, checksum, g, damaged, ps + others, inFragment, scratch);
    } else {
      EventsStep(crc, checksum, g, damaged, p, ps[1..] + others, inFragment, scratch);
      var t := if p.Block() in damaged then Step([], None, false, [])
        else Take(Rec(p.kind, p.payload), inFragment, scratch);
      if n == |left| {
        assert ps == [p] && ps[1..] + others == others;
        IntactSplit(ps, damaged);
        IntactNone(damaged);
        GatherStep(scratch, left, n);
      } else {
        FullBlock(pos, left);
        RecordEvents(crc, checksum, g, damaged, p.End(), left[n..], false, others, t.inFragment, t.scratch);
        assert LastEnd(p.End(), ps[1..]) == LastEnd(pos, ps);
        IntactSplit(ps, damaged);
        GatherStep(scratch, left, n);
      }
    }
  }

  lemma GatherStep(scratch: Bytes, left: Bytes, n: nat)
    requires n <= |left|
    ensures (scratch + left[..n]) + left[n..] == scratch + left && left[..n] + left[n..] == left && [] + left == left
    ensures n == |left| ==> left[..n] == left
  {
    Associate(scratch, left[..n], left[n..]);
  }

  lemma {:induction false} ChainEnd(pos: nat, ps: seq<Piece>)
    requires Chained(pos, ps)
    ensures LastEnd(pos, ps) >= pos && (ps != [] ==> LastEnd(pos, ps) >= ps[0].End())
    decreases |ps|
  {
    if ps != [] {
      ChainEnd(ps[0].End(), ps[1..]);
      assert LastEnd(ps[0].End(), ps[1..]) == LastEnd(pos, ps);
    }
  }

  lemma IntactNone(damaged: set<nat>)
    ensures Intact([], damaged)
  {
  }

  lemma IntactSplit(ps: seq<Piece>, damaged: set<nat>)
    requires ps != []
    ensures Intact(ps, damaged) <==> ps[0].Block() !in damaged && Intact(ps[1..], damaged)
  {
    if Intact(ps[1..], damaged) && ps[0].Block() !in damaged {
      forall i | 0 <= i < |ps| ensures ps[i].Block() !in damaged {
        if i > 0 { assert ps[i] == ps[1..][i - 1]; }
      }
    }
  }

  // ---------- the theorems ----------

  /** What a recovery gets out of a file: its records, and the reports made on the way. */
  ghost function Recovered(crc: Checksum, checksum: bool, file: Bytes): seq<Event> {
    Assemble(Parse(crc, checksum, [], file, false), false, [])
  }

  /** The records written at `pos` and after that lie within the first `n` bytes and have no fragment in a damaged
      block. */
  ghost function Surviving(n: nat, damaged: set<nat>, pos: nat, records: seq<Bytes>): seq<Bytes>
    decreases |records|
  {
    if records == [] then []
    else
      var ps := Pieces(pos, records[0], true);
      if LastEnd(pos, ps) > n then []
      else
        var survivors := Surviving(n, damaged, LastEnd(pos, ps), records[1..]);
        Prepend(if Intact(ps, damaged) then Some(records[0]) else None, survivors)
  }

  lemma {:induction false} RecordsSurvive(
      crc: Checksum, checksum: bool, g: Bytes, damaged: set<nat>, pos: nat, records: seq<Bytes>)
    requires forall k :: k in damaged ==> Rejected(crc, checksum, g, k)
    ensures var events := EventsOf(crc, checksum, g, damaged, AllPieces(pos, records), false, []);
      && Gots(events) == Surviving(|g|, damaged, pos, records)
      && (damaged == {} ==> Drops(events) == [])
    decreases |records|
  {
    hide Rejected, Pieces;
    if records == [] {
      GotNone();
    } else {
      var ps := Pieces(pos, records[0], true);
      var others := AllPieces(LastEnd(pos, ps), records[1..]);
      RecordEvents(crc, checksum, g, damaged, pos, records[0], true, others, false, []);
      assert [] + records[0] == records[0];
      if LastEnd(pos, ps) <= |g| {
        RecordsSurvive(crc, checksum, g, damaged, LastEnd(pos, ps), records[1..]);
      }
    }
  }

  /** A log that was cut short, and of which whole blocks were replaced by ones whose first header is refused, reads as
      exactly the records all of whose fragments are left. */
  lemma DamagedLogReads(crc: Checksum, checksum: bool, records: seq<Bytes>, g: Bytes, damaged: set<nat>)
    requires Damage(crc, checksum, LogFile(crc, records), g, damaged)
    ensures Gots(Recovered(crc, checksum, g)) == Surviving(|g|, damaged, 0, records)
    ensures damaged == {} ==> Drops(Recovered(crc, checksum, g)) == []
  {
    hide Parse, Rejected, Surviving;
    RecoveredEvents(crc, checksum, records, g, damaged);
    RecordsSurvive(crc, checksum, g, damaged, 0, records);
  }

  /** How many of the records written from `pos` on end within the first `n` bytes. */
  function CountWithin(n: nat, pos: nat, records: seq<Bytes>): (m: nat)
    ensures m <= |records|
    decreases |records|
  {
    if records == [] || LastEnd(pos, Pieces(pos, records[0], true)) > n then 0
    else 1 + CountWithin(n, LastEnd(pos, Pieces(pos, records[0], true)), records[1..])
  }

  lemma {:induction false} SurvivingPrefix(n: nat, pos: nat, records: seq<Bytes>)
    ensures Surviving(n, {}, pos, records) == records[..CountWithin(n, pos, records)]
    decreases |records|
  {
    hide Pieces;
    if records != [] {
      SurvivingPrefix(n, LastEnd(pos, Pieces(pos, records[0], true)), records[1..]);
    }
  }

  /** A record counts as soon as its last byte is in the file. */
  lemma {:induction false} CountIsExact(n: nat, pos: nat, records: seq<Bytes>, i: nat)
    requires i <= |records|
    ensures i <= CountWithin(n, pos, records) <==> i == 0 || LastEnd(pos, AllPieces(pos, records[..i])) <= n
    decreases |records|
  {
    hide Pieces;
    if i > 0 {
      var ps := Pieces(pos, records[0], true);
      var rest := AllPieces(LastEnd(pos, ps), records[1..][..i - 1]);
      assert records[..i][0] == records[0] && records[..i][1..] == records[1..][..i - 1];
      CountIsExact(n, LastEnd(pos, ps), records[1..], i - 1);
      AllChained(LastEnd(pos, ps), records[1..][..i - 1]);
      ChainEnd(LastEnd(pos, ps), rest);
      assert LastEnd(LastEnd(pos, ps), rest) == LastEnd(pos, ps + rest);
    }
  }

  /** Cutting the file at any byte leaves the records written completely before the cut, and nothing is reported. */
  lemma TruncatedLogReads(crc: Checksum, checksum: bool, records: seq<Bytes>, n: nat)
    requires n <= |LogFile(crc, records)|
    ensures var events := Recovered(crc, checksum, LogFile(crc, records)[..n]);
      && Gots(events) == records[..CountWithin(n, 0, records)]
      && Drops(events) == []
    ensures forall i :: 0 <= i <= |records| ==>
      (i <= CountWithin(n, 0, records) <==> |LogFile(crc, records[..i])| <= n)
  {
    hide Recovered, Surviving, CountWithin, AllPieces, Render;
    DamagedLogReads(crc, checksum, records, LogFile(crc, records)[..n], {});
    SurvivingPrefix(n, 0, records);
    forall i | 0 <= i <= |records|
      ensures i <= CountWithin(n, 0, records) <==> |LogFile(crc, records[..i])| <= n
    {
      LogFileLength(crc, records[..i]);
      CountIsExact(n, 0, records, i);
      if i == 0 { EmptyLog(crc, records[..i]); }
    }
  }

  lemma LogFileLength(crc: Checksum, records: seq<Bytes>)
    ensures |LogFile(crc, records)| == LastEnd(0, AllPieces(0, records))
  {
    AllChained(0, records);
    RenderLength(crc, 0, AllPieces(0, records));
  }

  lemma EmptyLog(crc: Checksum, records: seq<Bytes>)
    requires records == []
    ensures LogFile(crc, records) == []
  {
  }

  /** The reader returns exactly the records that were written. */
  lemma LogRoundTrip(crc: Checksum, checksum: bool, records: seq<Bytes>)
    ensures Gots(Recovered(crc, checksum, LogFile(crc, records))) == records
    ensures Drops(Recovered(crc, checksum, LogFile(crc, records))) == []
  {
    hide Recovered, CountWithin, LogFile;
    var f := LogFile(crc, records);
    assert f[..|f|] == f && records[..|records|] == records;
    TruncatedLogReads(crc, checksum, records, |f|);
  }

  // ---------- reports ----------

  /** The bytes the reader has been through: payloads of fragments and what refused headers cost. A fragment whose type
      byte has the value that stands for a refused one counts for nothing. */
  function BytesIn(ph: seq<Phys>): nat {
    if ph == [] || Stops(ph[0]) then 0
    else
      BytesIn(ph[1..]) +
      match ph[0]
      case Eof => 0
      case Bad(d) => if d.Some? then d.value else 0
      case Rec(k, p) => if k == BAD_RECORD_CODE then 0 else |p|
  }

  function BytesOut(events: seq<Event>): nat {
    if events == [] then 0
    else
      BytesOut(events[1..]) +
      match events[0]
      case Got(record) => |record|
      case Dropped(bytes) => bytes
  }

  /** What has been gathered of a record that the end of the file leaves without an end. */
  function LeftOver(ph: seq<Phys>, inFragment: bool, scratch: Bytes): Bytes {
    if ph == [] || Stops(ph[0]) then scratch
    else
      var t := Take(ph[0], inFragment, scratch);
      LeftOver(ph[1..], t.inFragment, t.scratch)
  }

  lemma {:induction false} BytesOutAppend(a: seq<Event>, b: seq<Event>)
    ensures BytesOut(a + b) == BytesOut(a) + BytesOut(b)
  {
    if a == [] {
      assert a + b == b;
    } else {
      assert (a + b)[1..] == a[1..] + b;
      BytesOutAppend(a[1..], b);
    }
  }

  lemma TakeConserves(ph: Phys, inFragment: bool, scratch: Bytes)
    requires !Stops(ph) && (!inFragment ==> scratch == [])
    ensures var t := Take(ph, inFragment, scratch);
      && (!t.inFragment ==> t.scratch == [])
      && |scratch| + BytesIn([ph]) == BytesOut(t.told) + BytesOut(GotOf(t.record)) + |t.scratch|
  {
    assert BytesIn([]) == 0 && BytesOut([]) == 0 && [ph][1..] == [];
    assert forall e: Event :: [e][1..] == [];
    if ph.Bad? && ph.dropped.Some? && inFragment {
      BytesOutAppend([Dropped(ph.dropped.value)], [Dropped(|scratch|)]);
    }
  }

  /** No byte of a fragment vanishes: it is returned in a record, or reported, or belongs to a record that the end of
      the file cuts off. */
  lemma {:induction false} BytesConserved(ph: seq<Phys>, inFragment: bool, scratch: Bytes)
    requires !inFragment ==> scratch == []
    ensures |scratch| + BytesIn(ph) == BytesOut(Assemble(ph, inFragment, scratch)) + |LeftOver(ph, inFragment, scratch)|
  {
    hide Take, Stops;
    if ph != [] && !Stops(ph[0]) {
      var t := Take(ph[0], inFragment, scratch);
      TakeConserves(ph[0], inFragment, scratch);
      BytesConserved(ph[1..], t.inFragment, t.scratch);
      BytesOutAppend(t.told + GotOf(t.record), Assemble(ph[1..], t.inFragment, t.scratch));
      BytesOutAppend(t.told, GotOf(t.record));
      assert [ph[0]][1..] == [] && BytesIn([]) == 0;
    }
  }

  /** A damaged block of the written file is met where it begins. */
  lemma {:induction false} RefusalIsRead(
      crc: Checksum, checksum: bool, g: Bytes, damaged: set<nat>, q: nat, ps: seq<Piece>, k: nat)
    requires forall d :: d in damaged ==> Rejected(crc, checksum, g, d)
    requires Chained(q, ps) && Aligned(q) <= k * BLOCK_SIZE && (k + 1) * BLOCK_SIZE <= LastEnd(q, ps)
    requires k in damaged && (k + 1) * BLOCK_SIZE <= |g|
    ensures Header(crc, checksum, g[k * BLOCK_SIZE..(k + 1) * BLOCK_SIZE], false)
      in PhysOf(crc, checksum, g, damaged, ps)
    decreases |ps|
  {
    hide Header, Aligned, Rejected;
    var p := ps[0];
    InsideBlock(p, k);
    if p.start < k * BLOCK_SIZE {
      StaysBefore(p.End(), k);
      LastEndStep(q, ps);
      RefusalIsRead(crc, checksum, g, damaged, p.End(), ps[1..], k);
    }
  }

  lemma InsideBlock(p: Piece, k: nat)
    requires p.start % BLOCK_SIZE + HEADER_SIZE + |p.payload| <= BLOCK_SIZE && p.start <= k * BLOCK_SIZE
    ensures p.start < k * BLOCK_SIZE ==> p.End() <= k * BLOCK_SIZE
    ensures p.start == k * BLOCK_SIZE ==> p.Block() == k && p.start % BLOCK_SIZE == 0
    ensures p.End() <= (k + 1) * BLOCK_SIZE
  {
  }

  lemma StaysBefore(pos: nat, k: nat)
    requires pos <= k * BLOCK_SIZE
    ensures Aligned(pos) <= k * BLOCK_SIZE
  {
  }

  lemma {:induction false} RefusalIsReported(ph: seq<Phys>, n: nat, inFragment: bool, scratch: Bytes)
    requires Bad(Some(n)) in ph && forall x :: x in ph ==> !Stops(x)
    ensures Dropped(n) in Drops(Assemble(ph, inFragment, scratch))
  {
    hide Drops, Assemble;
    var t := Take(ph[0], inFragment, scratch);
    assert ph == [ph[0]] + ph[1..];
    TakeStep(ph[0], ph[1..], inFragment, scratch);
    if ph[0] != Bad(Some(n)) { RefusalIsReported(ph[1..], n, t.inFragment, t.scratch); }
  }

  lemma {:induction false} NoStops(crc: Checksum, checksum: bool, g: Bytes, damaged: set<nat>, q: nat, ps: seq<Piece>)
    requires forall d :: d in damaged ==> Rejected(crc, checksum, g, d)
    requires Chained(q, ps)
    ensures forall x :: x in PhysOf(crc, checksum, g, damaged, ps) ==> !Stops(x)
    decreases |ps|
  {
    hide Header, Aligned;
    if ps != [] { NoStops(crc, checksum, g, damaged, ps[0].End(), ps[1..]); }
  }

  /** A block refused for its checksum or its length never goes unnoticed: it is reported with all its bytes. */
  lemma DamageIsReported(
      crc: Checksum, checksum: bool, records: seq<Bytes>, g: Bytes, damaged: set<nat>, k: nat)
    requires Damage(crc, checksum, LogFile(crc, records), g, damaged) && k in damaged
    requires (k + 1) * BLOCK_SIZE <= |g|
    requires var block := g[k * BLOCK_SIZE..(k + 1) * BLOCK_SIZE];
      Header(crc, checksum, block, false) != Bad(None)
    ensures Dropped(BLOCK_SIZE) in Drops(Recovered(crc, checksum, g))
  {
    hide Parse, Assemble, Header, Drops, Chained, PhysOf, Aligned;
    var f, ps := LogFile(crc, records), AllPieces(0, records);
    AllChained(0, records);
    LogFileLength(crc, records);
    RecoveredEvents(crc, checksum, records, g, damaged);
    StaysBefore(0, k);
    RefusalIsRead(crc, checksum, g, damaged, 0, ps, k);
    NoStops(crc, checksum, g, damaged, 0, ps);
    WholeBlockLost(crc, checksum, g[k * BLOCK_SIZE..(k + 1) * BLOCK_SIZE]);
    assert Rejected(crc, checksum, g, k);
    RefusalIsReported(PhysOf(crc, checksum, g, damaged, ps), BLOCK_SIZE, false, []);
  }

  lemma WholeBlockLost(crc: Checksum, checksum: bool, block: Bytes)
    requires |block| == BLOCK_SIZE && Header(crc, checksum, block, false).Bad?
    ensures Header(crc, checksum, block, false) == Bad(None) ||
      Header(crc, checksum, block, false) == Bad(Some(BLOCK_SIZE))
  {
  }

  lemma RecoveredEvents(crc: Checksum, checksum: bool, records: seq<Bytes>, g: Bytes, damaged: set<nat>)
    requires Damage(crc, checksum, LogFile(crc, records), g, damaged)
    ensures Recovered(crc, checksum, g) ==
      Assemble(PhysOf(crc, checksum, g, damaged, AllPieces(0, records)), false, [])
  {
    hide Parse, Rejected;
    var f := LogFile(crc, records);
    AllChained(0, records);
    assert f[0..] == f;
    assert Recovered(crc, checksum, g) == Assemble(ParseAt(crc, checksum, g, 0, 0), false, []) by {
      assert g[0..0] == [] && g[0..] == g;
    }
    ParseChain(crc, checksum, f, g, damaged, 0, 0, 0, AllPieces(0, records));
  }
}

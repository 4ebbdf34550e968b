/** The store as a state machine. */
module Database {
  // Writes, memtable switches, flushes, moves, compactions and snapshots; every run keeps the store equal to the
  // history of its writes (db/db_impl.cc lines 535-566, 688-744, 878-895, 1166-1174, 1200-1237, 1341-1367;
  // db/snapshot.h).

  import opened Basics
  import opened DbFormat
  import opened Versions
  import opened ReadPath
  import opened DropRules
  import opened Setup
  import opened Steps
  import opened Install
  import opened Outputs

  datatype Op = Put(key: UserKey, value: Bytes) | Delete(key: UserKey)

  /** What was written under each sequence number, the first being 1; `None` for a number used up by a write that
      failed. */
  type History = seq<Option<Op>>

  /** The plain meaning of a history: the last of the first `n` writes to `k`. */
  function Lookup(h: History, n: nat, k: UserKey): Option<Bytes>
    requires n <= |h|
  {
    if n == 0 then None else
    match h[n - 1]
    case Some(Put(key, value)) => if key == k then Some(value) else Lookup(h, n - 1, k)
    case Some(Delete(key)) => if key == k then None else Lookup(h, n - 1, k)
    case None => Lookup(h, n - 1, k)
  }

  datatype State = State(
    mem: seq<Entry>,
    imm: Option<seq<Entry>>,
    current: Version,
    lastSequence: Sequence,
    nextFile: nat,
    snapshots: seq<Sequence>,
    history: History)

  ghost function All(st: State): set<Entry> {
    AllEntries(st.mem, st.imm, st.current)
  }

  /** The oldest sequence number a reader may use: that of the oldest live snapshot, or the latest. */
  function Oldest(st: State): Sequence {
    if st.snapshots == [] then st.lastSequence else st.snapshots[0]
  }

  ghost predicate SnapshotsOk(st: State) {
    && (forall i :: 0 <= i < |st.snapshots| ==> st.snapshots[i] <= st.lastSequence)
    && (forall i, j :: 0 <= i < j < |st.snapshots| ==> st.snapshots[i] <= st.snapshots[j])
  }

  /** Reads at any number a reader may use give what the history says. */
  ghost predicate ReadsHistory(st: State)
    requires |st.history| == st.lastSequence
  {
    forall k, s: Sequence :: Oldest(st) <= s <= st.lastSequence ==> ReadAt(All(st), k, s) == Lookup(st.history, s, k)
  }

  ghost predicate DbInv(st: State) {
    && LayersInv(st.mem, st.imm, st.current)
    && |st.history| == st.lastSequence
    && (forall e :: e in All(st) ==> e.ikey.seqno <= st.lastSequence)
    && NumbersBelow(st.current, st.nextFile)
    && SnapshotsOk(st)
    && ReadsHistory(st)
  }

  ghost predicate Init(st: State) {
    st == State([], None, seq(NUM_LEVELS, _ => []), 0, 2, [], [])
  }

  lemma InitOk(st: State)
    requires Init(st)
    ensures DbInv(st)
  {
    assert forall l :: 0 <= l < NUM_LEVELS ==> EntriesOf(st.current[l]) == {};
    assert Entries(st.current) == {};
    forall k, s: Sequence ensures ReadAt(All(st), k, s) == None { NoneVisible(All(st), k, s); }
  }

  // ---------- the steps ----------

  function EntryOfOp(op: Op, s: Sequence): Entry {
    match op
    case Put(k, v) => Entry(IKey(k, s, Value), v)
    case Delete(k) => Entry(IKey(k, s, Deletion), [])
  }

  /** One operation of a batch enters the memtable under the next sequence number. */
  function AddOp(st: State, op: Op): State
    requires st.lastSequence < MAX_SEQUENCE
  {
    st.(mem := InsertSorted(st.mem, EntryOfOp(op, st.lastSequence + 1)),
        lastSequence := st.lastSequence + 1,
        history := st.history + [Some(op)])
  }

  function AddOps(st: State, ops: seq<Op>): (r: State)
    requires st.lastSequence + |ops| <= MAX_SEQUENCE
    ensures r.lastSequence == st.lastSequence + |ops|
  {
    if ops == [] then st else AddOp(AddOps(st, ops[..|ops| - 1]), ops[|ops| - 1])
  }

  /** A write whose log append failed still uses up its sequence numbers. */
  function BurnNumbers(st: State, n: nat): State
    requires st.lastSequence + n <= MAX_SEQUENCE
  {
    st.(lastSequence := st.lastSequence + n, history := st.history + seq(n, _ => None))
  }

  ghost predicate Write(a: State, b: State, ops: seq<Op>) {
    && a.lastSequence + |ops| <= MAX_SEQUENCE
    && (b == AddOps(a, ops) || b == BurnNumbers(a, |ops|))
  }

  ghost predicate SwitchMemtable(a: State, b: State) {
    a.imm.None? && b == a.(mem := [], imm := Some(a.mem))
  }

  /** The immutable memtable becomes a table numbered past every file of the version; an empty one leaves no file.
      Other allocations may have moved the counter on since. */
  ghost predicate Flush(a: State, b: State, level: nat, size: nat, number: nat) {
    && a.imm.Some?
    && a.nextFile <= b.nextFile && number < b.nextFile && NumbersBelow(a.current, number)
    && if a.imm.value == [] then b == a.(imm := None, nextFile := b.nextFile)
       else
         var f := RunFile(number, size, a.imm.value);
         && FlushLevelOk(a.current, level, f)
         && b == a.(imm := None, current := Installed(a.current, FlushEdit(level, f)), nextFile := b.nextFile)
  }

  /** New files carry distinct numbers that no file of the version has, allocated before the counter reached `n`. */
  ghost predicate FreshFiles(v: Version, files: seq<File>, n: nat) {
    && (forall i, j :: 0 <= i < j < |files| ==> files[i].number != files[j].number)
    && (forall f :: f in files ==> f.number < n)
    && (forall l, f, g :: 0 <= l < NUM_LEVELS && f in files && g in v[l] ==> f.number != g.number)
  }

  /** A compaction of picked inputs that ran with `oldest` for the smallest snapshot, no later than the oldest number
      a reader may use when the results are installed, under the hypothesis that it splits no user key at the next
      level. */
  ghost predicate Compact(
      a: State, b: State, level: nat, in0: seq<File>, in1: seq<File>, oldest: Sequence, outs: seq<File>) {
    && Picked(a.current, level, in0, in1)
    && NoSplitKey(a.current, level, in1)
    && oldest <= Oldest(a)
    && CompactionOutputs(a.current, level, in0, in1, oldest, outs)
    && a.nextFile <= b.nextFile && FreshFiles(a.current, outs, b.nextFile)
    && b == a.(current := Installed(a.current, CompactionEdit(level, in0, in1, outs)), nextFile := b.nextFile)
  }

  ghost predicate TrivialMove(a: State, b: State, level: nat, f: File) {
    && Picked(a.current, level, [f], [])
    && b == a.(current := Installed(a.current, CompactionEdit(level, [f], [], [f])))
  }

  ghost predicate TakeSnapshot(a: State, b: State) {
    b == a.(snapshots := a.snapshots + [a.lastSequence])
  }

  ghost predicate ReleaseSnapshot(a: State, b: State, i: nat) {
    i < |a.snapshots| && b == a.(snapshots := a.snapshots[..i] + a.snapshots[i + 1..])
  }

  datatype Step =
    | DoWrite(ops: seq<Op>)
    | DoSwitch
    | DoFlush(level: nat, size: nat, number: nat)
    | DoCompact(clevel: nat, in0: seq<File>, in1: seq<File>, oldest: Sequence, outs: seq<File>)
    | DoMove(mlevel: nat, f: File)
    | DoTakeSnapshot
    | DoReleaseSnapshot(i: nat)

  ghost predicate Next(a: State, b: State, step: Step) {
    match step
    case DoWrite(ops) => Write(a, b, ops)
    case DoSwitch => SwitchMemtable(a, b)
    case DoFlush(level, size, number) => Flush(a, b, level, size, number)
    case DoCompact(level, in0, in1, oldest, outs) => Compact(a, b, level, in0, in1, oldest, outs)
    case DoMove(level, f) => TrivialMove(a, b, level, f)
    case DoTakeSnapshot => TakeSnapshot(a, b)
    case DoReleaseSnapshot(i) => ReleaseSnapshot(a, b, i)
  }

  // ---------- writes ----------

  lemma {:induction false} LookupPrefix(h: History, h': History, n: nat, k: UserKey)
    requires n <= |h| && h <= h'
    ensures Lookup(h', n, k) == Lookup(h, n, k)
  {
    if n > 0 {
      assert h'[n - 1] == h[n - 1];
      LookupPrefix(h, h', n - 1, k);
    }
  }

  /** An entry newer than all others changes only the reads that can see it, and only at its key. */
  lemma ReadWithNewest(es: set<Entry>, e: Entry, k: UserKey, s: Sequence)
    requires Unique(es) && forall x :: x in es ==> x.ikey.seqno < e.ikey.seqno
    ensures Unique(es + {e})
    ensures ReadAt(es + {e}, k, s) == (if Visible(e, k, s) then Meaning(Some(e)) else ReadAt(es, k, s))
  {
    var all := es + {e};
    if Visible(e, k, s) {
      assert IsNewest(all, k, s, e);
      NewestIs(all, k, s, e);
    } else {
      SameVisible(es, all, k, s);
    }
  }

  lemma SameVisible(a: set<Entry>, b: set<Entry>, k: UserKey, s: Sequence)
    requires Unique(a) && Unique(b)
    requires forall x :: Visible(x, k, s) ==> (x in a <==> x in b)
    ensures Newest(a, k, s) == Newest(b, k, s)
  {
    var n := Newest(a, k, s);
    if n.Some? {
      assert IsNewest(b, k, s, n.value);
      NewestIs(b, k, s, n.value);
    } else {
      NoneVisible(b, k, s);
    }
  }

  /** Sequence numbers past the newest entry read alike. */
  lemma ReadPastEnd(es: set<Entry>, last: Sequence, k: UserKey, s: Sequence)
    requires Unique(es) && (forall x :: x in es ==> x.ikey.seqno <= last) && last <= s
    ensures ReadAt(es, k, s) == ReadAt(es, k, last)
  {
    var n := Newest(es, k, last);
    if n.Some? {
      assert IsNewest(es, k, s, n.value);
      NewestIs(es, k, s, n.value);
    } else {
      forall e | e in es ensures !Visible(e, k, s) { assert !Visible(e, k, last); }
      NoneVisible(es, k, s);
    }
  }

  lemma LayersUnique(st: State)
    requires LayersInv(st.mem, st.imm, st.current)
    ensures Unique(All(st))
  {
  }

  lemma InsertedSet(es: seq<Entry>, e: Entry)
    requires Sorted(es) && forall x :: x in es ==> x.ikey != e.ikey
    ensures Sorted(InsertSorted(es, e)) && SetOf(InsertSorted(es, e)) == SetOf(es) + {e}
  {
    InsertSortedOk(es, e);
  }

  lemma NewestEntryLayers(mem: seq<Entry>, imm: Option<seq<Entry>>, current: Version, e: Entry)
    requires LayersInv(mem, imm, current)
    requires forall x :: x in AllEntries(mem, imm, current) ==> x.ikey.seqno < e.ikey.seqno
    ensures LayersInv(InsertSorted(mem, e), imm, current)
    ensures AllEntries(InsertSorted(mem, e), imm, current) == AllEntries(mem, imm, current) + {e}
  {
    assert forall x :: x in mem ==> x in AllEntries(mem, imm, current);
    InsertedSet(mem, e);
  }

  /** Adding the entry of the next operation extends what reads and the history agree on. */
  lemma AddOpReads(es: set<Entry>, h: History, op: Op, oldest: Sequence, k: UserKey, s: Sequence)
    requires |h| < MAX_SEQUENCE && oldest <= s <= |h| + 1
    requires oldest <= s <= |h| ==> ReadAt(es, k, s) == Lookup(h, s, k)
    requires ReadAt(es, k, |h|) == Lookup(h, |h|, k)
    requires Unique(es) && forall e :: e in es ==> e.ikey.seqno <= |h|
    ensures ReadAt(es + {EntryOfOp(op, |h| + 1)}, k, s) == Lookup(h + [Some(op)], s, k)
  {
    ReadWithNewest(es, EntryOfOp(op, |h| + 1), k, s);
    if s <= |h| {
      LookupPrefix(h, h + [Some(op)], s, k);
    } else {
      ReadPastEnd(es, |h|, k, s);
      LookupPrefix(h, h + [Some(op)], |h|, k);
    }
  }

  lemma AddOpOk(a: State, op: Op)
    requires DbInv(a) && a.lastSequence < MAX_SEQUENCE
    ensures DbInv(AddOp(a, op))
  {
    hide Inv, Sorted, NewerThan, InsertSorted;
    var e, b := EntryOfOp(op, a.lastSequence + 1), AddOp(a, op);
    NewestEntryLayers(a.mem, a.imm, a.current, e);
    LayersUnique(a);
    forall k, s: Sequence | Oldest(b) <= s <= b.lastSequence ensures ReadAt(All(b), k, s) == Lookup(b.history, s, k) {
      AddOpReads(All(a), a.history, op, Oldest(b), k, s);
    }
  }

  lemma {:induction false} AddOpsOk(a: State, ops: seq<Op>)
    requires DbInv(a) && a.lastSequence + |ops| <= MAX_SEQUENCE
    ensures DbInv(AddOps(a, ops))
  {
    if ops != [] {
      AddOpsOk(a, ops[..|ops| - 1]);
      AddOpOk(AddOps(a, ops[..|ops| - 1]), ops[|ops| - 1]);
    }
  }

  lemma {:induction false} LookupBurnt(h: History, n: nat, m: nat, k: UserKey)
    requires m <= n
    ensures Lookup(h + seq(n, _ => None), |h| + m, k) == Lookup(h, |h|, k)
  {
    if m == 0 {
      LookupPrefix(h, h + seq(n, _ => None), |h|, k);
    } else {
      LookupBurnt(h, n, m - 1, k);
    }
  }

  lemma BurnOk(a: State, n: nat)
    requires DbInv(a) && a.lastSequence + n <= MAX_SEQUENCE
    ensures DbInv(BurnNumbers(a, n))
  {
    var b := BurnNumbers(a, n);
    LayersUnique(a);
    forall k, s: Sequence | Oldest(b) <= s <= b.lastSequence ensures ReadAt(All(b), k, s) == Lookup(b.history, s, k) {
      if s <= a.lastSequence {
        LookupPrefix(a.history, b.history, s, k);
      } else {
        ReadPastEnd(All(a), a.lastSequence, k, s);
        LookupBurnt(a.history, n, s - a.lastSequence, k);
      }
    }
  }

  // ---------- switching, flushing, compacting ----------

  lemma SwitchOk(a: State, b: State)
    requires DbInv(a) && SwitchMemtable(a, b)
    ensures DbInv(b)
  {
    assert All(b) == All(a);
  }

  lemma FlushNonempty(a: State, b: State, level: nat, size: nat, number: nat)
    requires DbInv(a) && Flush(a, b, level, size, number) && a.imm.value != []
    ensures Inv(b.current) && NumbersBelow(b.current, b.nextFile)
    ensures Entries(b.current) == Entries(a.current) + ImmEntries(a.imm)
  {
    var f := RunFile(number, size, a.imm.value);
    FlushInstalled(a.current, level, f);
    FlushKeepsInv(a.current, level, f, b.current);
    FlushedBelow(a.current, level, f, b.current, b.nextFile);
  }

  lemma FlushedLayers(a: State, b: State)
    requires LayersInv(a.mem, a.imm, a.current) && Inv(b.current) && b.mem == a.mem && b.imm == None
    requires Entries(b.current) == Entries(a.current) + ImmEntries(a.imm)
    ensures LayersInv(b.mem, b.imm, b.current) && All(b) == All(a)
  {
  }

  lemma FlushOk(a: State, b: State, level: nat, size: nat, number: nat)
    requires DbInv(a) && Flush(a, b, level, size, number)
    ensures DbInv(b)
  {
    hide Inv, Sorted, NewerThan, Unique, Installed, FlushEdit, FlushLevelOk, RunFile;
    if a.imm.value != [] {
      FlushNonempty(a, b, level, size, number);
    } else {
      assert ImmEntries(a.imm) == {};
    }
    FlushedLayers(a, b);
  }

  lemma FlushedBelow(v: Version, level: nat, f: File, v': Version, n: nat)
    requires level < NUM_LEVELS && Flushed(v, level, f, v') && NumbersBelow(v, f.number) && f.number < n
    ensures NumbersBelow(v', n)
  {
    forall l, g | 0 <= l < NUM_LEVELS && g in v'[l] ensures g.number < n {
      assert g in v[l] || (l == level && g == f);
    }
  }

  /** Replacing the tables by ones that read alike leaves the whole store reading alike. */
  lemma BelowReadsAlike(top: set<Entry>, below: set<Entry>, below': set<Entry>, k: UserKey, s: Sequence)
    requires NewerThan(top, below) && Unique(top) && Unique(below) && below' <= below
    requires ReadAt(below', k, s) == ReadAt(below, k, s)
    ensures ReadAt(top + below', k, s) == ReadAt(top + below, k, s)
  {
    Layering(top, below, k, s);
    Layering(top, below', k, s);
  }

  ghost function Memtables(st: State): set<Entry> {
    SetOf(st.mem) + ImmEntries(st.imm)
  }

  lemma MemtablesOnTop(st: State)
    requires LayersInv(st.mem, st.imm, st.current)
    ensures NewerThan(Memtables(st), Entries(st.current)) && Unique(Memtables(st)) && Unique(Entries(st.current))
    ensures All(st) == Memtables(st) + Entries(st.current)
  {
  }

  lemma LayersOverFewer(a: State, b: State)
    requires LayersInv(a.mem, a.imm, a.current) && b.mem == a.mem && b.imm == a.imm && Inv(b.current)
    requires Entries(b.current) <= Entries(a.current)
    ensures LayersInv(b.mem, b.imm, b.current)
    ensures All(b) <= All(a) && All(b) == Memtables(a) + Entries(b.current)
  {
  }

  lemma TablesReplaced(a: State, b: State)
    requires DbInv(a) && Inv(b.current) && b == a.(current := b.current, nextFile := b.nextFile)
    requires Entries(b.current) <= Entries(a.current) && NumbersBelow(b.current, b.nextFile)
    requires ReadsPreserved(Entries(a.current), Entries(b.current), Oldest(a))
    ensures DbInv(b)
  {
    MemtablesOnTop(a);
    LayersOverFewer(a, b);
    forall k, s: Sequence | Oldest(b) <= s <= b.lastSequence ensures ReadAt(All(b), k, s) == Lookup(b.history, s, k) {
      BelowReadsAlike(Memtables(a), Entries(a.current), Entries(b.current), k, s);
    }
  }

  lemma NumberedFits(v: Version, level: nat, in0: seq<File>, outs: seq<File>, n: nat)
    requires level + 1 < NUM_LEVELS && FreshFiles(v, outs, n)
    ensures OutputNumbers(v, level, outs) && NumbersFit(v, level, in0, outs)
  {
  }

  lemma NumbersAfter(
      v: Version, level: nat, in0: seq<File>, in1: seq<File>, outs: seq<File>, v': Version, n: nat, m: nat)
    requires Replaced(v, level, in0, in1, outs, v') && NumbersBelow(v, n) && n <= m
    requires forall f :: f in outs ==> f.number < m
    ensures NumbersBelow(v', m)
  {
    forall l, f | 0 <= l < NUM_LEVELS && f in v'[l] ensures f.number < m {
      ReplacedLevel(v, level, in0, in1, outs, v', l);
    }
  }

  lemma ShrinkingEntries(v: Version, level: nat, in0: seq<File>, in1: seq<File>, outs: seq<File>, v': Version)
    requires Located(v, level, in0, in1) && Replaced(v, level, in0, in1, outs, v') && MadeOf(outs, in0, in1)
    ensures Entries(v') <= Entries(v)
  {
    EntriesSplit(v, level, in0, in1);
    EntriesAfter(v, level, in0, in1, outs, v');
  }

  lemma CompactOk(a: State, b: State, level: nat, in0: seq<File>, in1: seq<File>, oldest: Sequence, outs: seq<File>)
    requires DbInv(a) && Compact(a, b, level, in0, in1, oldest, outs)
    ensures DbInv(b)
  {
    var v, v' := a.current, b.current;
    var _, _ := PickedLocated(v, level, in0, in1);
    NumberedFits(v, level, in0, outs, b.nextFile);
    CompactionInstalled(v, level, in0, in1, outs);
    assert MadeOf(outs, in0, in1);
    ReplaceKeepsInv(v, level, in0, in1, outs, v');
    CompactionPreservesReads(v, level, in0, in1, oldest, outs, v');
    ShrinkingEntries(v, level, in0, in1, outs, v');
    NumbersAfter(v, level, in0, in1, outs, v', a.nextFile, b.nextFile);
    TablesReplaced(a, b);
  }

  lemma MoveReplaces(v: Version, level: nat, f: File, v': Version)
    requires DistinctNumbers(v) && LevelsOrdered(v) && Picked(v, level, [f], [])
    requires v' == Installed(v, CompactionEdit(level, [f], [], [f]))
    ensures Replaced(v, level, [f], [], [f], v') && NumbersFit(v, level, [f], [f])
    ensures Entries(v') == Entries(v)
  {
    var _, _ := PickedLocated(v, level, [f], []);
    assert f in [f];
    assert OutputNumbers(v, level, [f]);
    CompactionInstalled(v, level, [f], [], [f]);
    MovedEntries(v, level, f, v');
  }

  lemma MovedEntries(v: Version, level: nat, f: File, v': Version)
    requires Located(v, level, [f], []) && Replaced(v, level, [f], [], [f], v')
    ensures Entries(v') == Entries(v) && MadeOf([f], [f], [])
  {
    assert EntriesOf([f]) == InputEntries([f], []);
    EntriesSplit(v, level, [f], []);
    EntriesAfter(v, level, [f], [], [f], v');
  }

  lemma MoveOk(a: State, b: State, level: nat, f: File)
    requires DbInv(a) && TrivialMove(a, b, level, f)
    ensures DbInv(b)
  {
    var v, v' := a.current, b.current;
    MoveReplaces(v, level, f, v');
    MoveKeepsInv(v, level, f, v');
    NumbersAfter(v, level, [f], [], [f], v', a.nextFile, a.nextFile);
    TablesReplaced(a, b);
  }

  lemma MoveKeepsInv(v: Version, level: nat, f: File, v': Version)
    requires Inv(v) && Picked(v, level, [f], [])
    requires Replaced(v, level, [f], [], [f], v') && NumbersFit(v, level, [f], [f])
    ensures Inv(v') && f in v[level]
  {
    var _, _ := PickedLocated(v, level, [f], []);
    assert f in [f];
    MovedEntries(v, level, f, v');
    ReplaceKeepsInv(v, level, [f], [], [f], v');
  }

  // ---------- snapshots ----------

  lemma ReleaseOk(a: State, b: State, i: nat)
    requires DbInv(a) && ReleaseSnapshot(a, b, i)
    ensures DbInv(b) && Oldest(b) >= Oldest(a)
  {
    assert All(b) == All(a);
    var s := a.snapshots;
    assert forall j :: 0 <= j < |b.snapshots| ==> b.snapshots[j] == if j < i then s[j] else s[j + 1];
  }

  // ---------- every run ----------

  /** Every step keeps the store correct. */
  lemma NextOk(a: State, b: State, step: Step)
    requires DbInv(a) && Next(a, b, step)
    ensures DbInv(b)
  {
    match step
    case DoWrite(ops) => if b == AddOps(a, ops) { AddOpsOk(a, ops); } else { BurnOk(a, |ops|); }
    case DoSwitch => SwitchOk(a, b);
    case DoFlush(level, size, number) => FlushOk(a, b, level, size, number);
    case DoCompact(level, in0, in1, oldest, outs) => CompactOk(a, b, level, in0, in1, oldest, outs);
    case DoMove(level, f) => MoveOk(a, b, level, f);
    case DoTakeSnapshot => assert All(b) == All(a);
    case DoReleaseSnapshot(i) => ReleaseOk(a, b, i);
  }

  ghost predicate Run(states: seq<State>, steps: seq<Step>) {
    && |states| == |steps| + 1
    && Init(states[0])
    && forall i :: 0 <= i < |steps| ==> Next(states[i], states[i + 1], steps[i])
  }

  /** Along every run, a read at the latest number or at a live snapshot returns what the history of writes
      up to that number says, and every version satisfies its invariants. */
  lemma {:induction false} EveryRunReadsHistory(states: seq<State>, steps: seq<Step>, n: nat)
    requires Run(states, steps) && n < |states|
    ensures DbInv(states[n])
    ensures forall k, s :: s == states[n].lastSequence || s in states[n].snapshots ==>
      ReadAt(All(states[n]), k, s) == Lookup(states[n].history, s, k)
  {
    if n == 0 {
      InitOk(states[0]);
    } else {
      EveryRunReadsHistory(states, steps, n - 1);
      NextOk(states[n - 1], states[n], steps[n - 1]);
    }
  }

  lemma {:induction false} HistoryOnlyGrows(states: seq<State>, steps: seq<Step>, i: nat, j: nat)
    requires Run(states, steps) && i <= j < |states|
    ensures states[i].history <= states[j].history
    decreases j
  {
    if i < j {
      HistoryOnlyGrows(states, steps, i, j - 1);
      StepGrowsHistory(states[j - 1], states[j], steps[j - 1]);
    }
  }

  lemma StepGrowsHistory(a: State, b: State, step: Step)
    requires Next(a, b, step)
    ensures a.history <= b.history
  {
    if step.DoWrite? { AddOpsGrow(a, step.ops); }
  }

  lemma {:induction false} AddOpsGrow(a: State, ops: seq<Op>)
    requires a.lastSequence + |ops| <= MAX_SEQUENCE
    ensures a.history <= AddOps(a, ops).history
  {
    if ops != [] { AddOpsGrow(a, ops[..|ops| - 1]); }
  }

  /** Whatever is written, flushed, moved or compacted meanwhile, a held snapshot keeps reading the same values. */
  lemma SnapshotReadsNeverChange(states: seq<State>, steps: seq<Step>, i: nat, j: nat, k: UserKey, s: Sequence)
    requires Run(states, steps) && i <= j < |states|
    requires s in states[i].snapshots && s in states[j].snapshots
    ensures ReadAt(All(states[j]), k, s) == ReadAt(All(states[i]), k, s)
  {
    EveryRunReadsHistory(states, steps, i);
    EveryRunReadsHistory(states, steps, j);
    HistoryOnlyGrows(states, steps, i, j);
    LookupPrefix(states[i].history, states[j].history, s, k);
  }
}

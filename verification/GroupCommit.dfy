/** Concurrent writers: the queue and its groups. */
module GroupCommit {
  // The groups a leader logs for others and the numbers their operations get (db/db_impl.cc lines 1185-1306).
  // A writer is known by its ticket, its place in the order of arrival. Writers leave from the front only, so the queue
  // is always the tickets from `head` on.

  import opened Basics
  import opened Coding
  import opened WriteBatches

  /** What a writer asks for; no batch for one that only wants the memtable flushed. */
  datatype Request = Request(batch: Option<seq<BatchOp>>, sync: bool)

  datatype Status = Waiting | Ok | Failed

  /** One record in the log: the batches of the tickets `[from, end)`, numbered from `first`. */
  datatype Group = Group(from: nat, end: nat, first: nat, ops: seq<BatchOp>, sync: bool)

  /** What the leader is busy with outside the lock. */
  datatype Flight = Grounded | Flying(g: Group)

  datatype Sys = Sys(
    requests: seq<Request>,
    status: seq<Status>,
    head: nat,
    flight: Flight,
    lastSequence: nat,
    log: seq<Group>,
    failed: bool)            // a background error: no more writes

  // ---------- building a group ----------

  function OpsOf(r: Request): seq<BatchOp> {
    if r.batch.Some? then r.batch.value else []
  }

  function AllOps(rs: seq<Request>): seq<BatchOp> {
    if rs == [] then [] else AllOps(rs[..|rs| - 1]) + OpsOf(rs[|rs| - 1])
  }

  function ByteSize(r: Request): nat {
    HEADER + |Records(OpsOf(r))|
  }

  function MaxSize(first: nat): nat {
    if first <= 0x20000 then first + 0x20000 else 0x100000
  }

  /** How far a group that holds the first `i` writers of the queue extends. */
  function Extent(queue: seq<Request>, i: nat, size: nat, max: nat): (n: nat)
    requires 1 <= i <= |queue|
    ensures i <= n <= |queue|
    decreases |queue| - i
  {
    if i == |queue| then i
    else
      var w := queue[i];
      if w.sync && !queue[0].sync then i
      else if w.batch.Some? then
        var size' := size + ByteSize(w);
        if size' > max then i else Extent(queue, i + 1, size', max)
      else Extent(queue, i + 1, size, max)
  }

  function GroupLength(queue: seq<Request>): (n: nat)
    requires queue != []
    ensures 1 <= n <= |queue|
  {
    Extent(queue, 1, ByteSize(queue[0]), MaxSize(ByteSize(queue[0])))
  }

  /** BuildBatchGroup: the batches of the leader and as many followers as fit, in one batch. */
  method BuildBatchGroup(queue: seq<Request>) returns (n: nat, ops: seq<BatchOp>)
    requires queue != [] && queue[0].batch.Some?
    ensures n == GroupLength(queue) && LongestGroup(queue, n)
    ensures ops == AllOps(queue[..n])
  {
    hide ByteSize;
    GroupIsLongest(queue);
    var first := queue[0];
    var size: nat := ByteSize(first);
    var maxSize: nat := 0x100000;
    if size <= 0x20000 {
      maxSize := size + 0x20000;
    }
    ops := first.batch.value;
    assert AllOps(queue[..1]) == ops by { assert queue[..1][..0] == []; assert [] + ops == ops; }
    n := 1;
    while n < |queue|
      invariant 1 <= n <= |queue|
      invariant Extent(queue, n, size, maxSize) == GroupLength(queue)
      invariant ops == AllOps(queue[..n])
      decreases |queue| - n
    {
      var w := queue[n];
      assert queue[..n + 1][..n] == queue[..n];
      if w.sync && !first.sync {
        return;
      }
      if w.batch.Some? {
        size := size + ByteSize(w);
        if size > maxSize {
          return;
        }
        ops := ops + w.batch.value;
      } else {
        assert ops + [] == ops;
      }
      n := n + 1;
    }
  }

  /** A writer that wants its data synced is never in the group of a leader that does not. */
  lemma {:induction false} ExtentKeepsSync(queue: seq<Request>, i: nat, size: nat, max: nat)
    requires 1 <= i <= |queue|
    ensures forall j :: i <= j < Extent(queue, i, size, max) ==> queue[j].sync ==> queue[0].sync
    decreases |queue| - i
  {
    hide ByteSize;
    if i < |queue| {
      var w := queue[i];
      if w.sync && !queue[0].sync {
      } else if w.batch.Some? {
        if size + ByteSize(w) <= max { ExtentKeepsSync(queue, i + 1, size + ByteSize(w), max); }
      } else {
        ExtentKeepsSync(queue, i + 1, size, max);
      }
    }
  }

  lemma GroupKeepsSync(queue: seq<Request>)
    requires queue != []
    ensures forall j :: 0 <= j < GroupLength(queue) ==> queue[j].sync ==> queue[0].sync
  {
    ExtentKeepsSync(queue, 1, ByteSize(queue[0]), MaxSize(ByteSize(queue[0])));
  }

  // ---------- which writers a group takes ----------

  /** The bytes of the first `n` writers' batches. */
  function Load(queue: seq<Request>, n: nat): nat
    requires n <= |queue|
  {
    if n == 0 then 0 else Load(queue, n - 1) + if queue[n - 1].batch.Some? then ByteSize(queue[n - 1]) else 0
  }

  /** Writer `j` may join those before it: it asks for no more safety than the leader, and its batch still fits. */
  predicate Admissible(queue: seq<Request>, j: nat)
    requires j < |queue|
  {
    && (queue[j].sync ==> queue[0].sync)
    && (queue[j].batch.Some? ==> Load(queue, j + 1) <= MaxSize(ByteSize(queue[0])))
  }

  /** The leader and every writer behind it up to the first that may not join. */
  ghost predicate LongestGroup(queue: seq<Request>, n: nat) {
    && 1 <= n <= |queue|
    && (forall j :: 1 <= j < n ==> Admissible(queue, j))
    && (n < |queue| ==> !Admissible(queue, n))
  }

  lemma {:induction false} ExtentIsLongest(queue: seq<Request>, i: nat)
    requires 1 <= i <= |queue|
    ensures var n := Extent(queue, i, Load(queue, i), MaxSize(ByteSize(queue[0])));
      && (forall j :: i <= j < n ==> Admissible(queue, j))
      && (n < |queue| ==> !Admissible(queue, n))
    decreases |queue| - i
  {
    hide ByteSize, MaxSize;
    if i < |queue| && Admissible(queue, i) { ExtentIsLongest(queue, i + 1); }
  }

  lemma GroupIsLongest(queue: seq<Request>)
    requires queue != [] && queue[0].batch.Some?
    ensures LongestGroup(queue, GroupLength(queue))
  {
    hide ByteSize, MaxSize;
    assert Load(queue, 0) == 0 && Load(queue, 1) == ByteSize(queue[0]);
    ExtentIsLongest(queue, 1);
  }

  lemma {:induction false} LoadOfPrefix(queue: seq<Request>, later: seq<Request>, n: nat)
    requires n <= |queue|
    ensures Load(queue + later, n) == Load(queue, n)
  {
    if n > 0 { LoadOfPrefix(queue, later, n - 1); }
  }

  /** Writers that arrive later take nobody out of a group; they can only extend one that had room for the whole
      queue. */
  lemma LaterWritersOnlyExtend(queue: seq<Request>, later: seq<Request>)
    requires queue != [] && queue[0].batch.Some?
    ensures GroupLength(queue) <= GroupLength(queue + later)
    ensures GroupLength(queue) < |queue| ==> GroupLength(queue + later) == GroupLength(queue)
  {
    hide ByteSize, MaxSize, Extent;
    GroupIsLongest(queue);
    GroupIsLongest(queue + later);
    forall j: nat | j < |queue| ensures Admissible(queue + later, j) <==> Admissible(queue, j) {
      LoadOfPrefix(queue, later, j + 1);
    }
  }

  // ---------- the steps ----------

  datatype Outcome = Logged | AppendFailed | SyncFailed

  datatype Step =
    | Arrive(r: Request)
    | Lead                 // the front writer builds its group and leaves the lock
    | Refuse               // no room, a background error, or nothing to write: the front writer is done on its own
    | Land(outcome: Outcome)

  predicate Queued(s: Sys) {
    s.head < |s.requests|
  }

  function SetStatus(status: seq<Status>, from: nat, end: nat, st: Status): (r: seq<Status>)
    requires from <= end <= |status|
    ensures |r| == |status|
    ensures forall t :: 0 <= t < |r| ==> r[t] == if from <= t < end then st else status[t]
  {
    status[..from] + seq(end - from, _ => st) + status[end..]
  }

  ghost predicate Next(a: Sys, b: Sys, s: Step) {
    match s
    case Arrive(r) =>
      b == a.(requests := a.requests + [r], status := a.status + [Waiting])
    case Lead =>
      && a.flight.Grounded? && Queued(a) && !a.failed && a.requests[a.head].batch.Some?
      && var queue := a.requests[a.head..];
         var n := GroupLength(queue);
         b == a.(flight := Flying(Group(a.head, a.head + n, a.lastSequence + 1, AllOps(queue[..n]),
           a.requests[a.head].sync)))
    case Refuse =>
      && a.flight.Grounded? && Queued(a) && a.head < |a.status|
      // MakeRoomForWrite failed, or this writer has no batch and is done once there is room
      && exists st :: RefusedWith(a, b, st)
    case Land(outcome) =>
      && a.flight.Flying? && a.flight.g.from <= a.flight.g.end <= |a.status|
      && var g := a.flight.g;
         b == a.(
           status := SetStatus(a.status, g.from, g.end, if outcome.Logged? then Ok else Failed),
           head := g.end,
           flight := Grounded,
           lastSequence := a.lastSequence + |g.ops|,
           log := if outcome.AppendFailed? then a.log else a.log + [g],
           failed := a.failed || outcome.SyncFailed?)
  }

  ghost predicate RefusedWith(a: Sys, b: Sys, st: Status)
    requires a.head < |a.status| && a.head < |a.requests|
  {
    && (st == Failed || (st == Ok && a.requests[a.head].batch.None?))
    && b == a.(status := a.status[a.head := st], head := a.head + 1)
  }

  // ---------- the invariant ----------

  ghost predicate GroupOk(s: Sys, g: Group) {
    && g.from < g.end <= |s.requests|
    && s.requests[g.from].batch.Some?
    && g.ops == AllOps(s.requests[g.from..g.end])
    && g.sync == s.requests[g.from].sync
    && (forall t :: g.from <= t < g.end && s.requests[t].sync ==> g.sync)
    && g.first >= 1
  }

  /** Earlier groups come from earlier writers and have smaller numbers. */
  ghost predicate GroupsOrdered(log: seq<Group>) {
    forall i, j :: 0 <= i < j < |log| ==> log[i].end <= log[j].from && log[i].first + |log[i].ops| <= log[j].first
  }

  ghost predicate InLog(log: seq<Group>, t: nat) {
    exists i :: 0 <= i < |log| && log[i].from <= t < log[i].end
  }

  ghost predicate Inv(s: Sys) {
    && |s.status| == |s.requests| && s.head <= |s.requests|
    && (forall i :: 0 <= i < |s.log| ==>
          GroupOk(s, s.log[i]) && s.log[i].end <= s.head && s.log[i].first + |s.log[i].ops| <= s.lastSequence + 1)
    && GroupsOrdered(s.log)
    && (s.flight.Flying? ==>
          GroupOk(s, s.flight.g) && s.flight.g.from == s.head && s.flight.g.first == s.lastSequence + 1)
    && (forall t :: 0 <= t < |s.status| ==> (s.status[t].Waiting? <==> s.head <= t))
    && (forall t :: 0 <= t < s.head && s.status[t].Ok? && s.requests[t].batch.Some? ==> InLog(s.log, t))
  }

  lemma ArriveOk(a: Sys, b: Sys, s: Step)
    requires Inv(a) && s.Arrive? && Next(a, b, s)
    ensures Inv(b)
  {
    hide AllOps, InLog;
    forall g | GroupOk(a, g) ensures GroupOk(b, g) {
      assert b.requests[g.from..g.end] == a.requests[g.from..g.end];
    }
  }

  lemma LeadOk(a: Sys, b: Sys)
    requires Inv(a) && Next(a, b, Lead)
    ensures Inv(b)
  {
    hide AllOps, InLog, GroupLength;
    var queue := a.requests[a.head..];
    var n := GroupLength(queue);
    GroupKeepsSync(queue);
    var g := b.flight.g;
    assert a.requests[g.from..g.end] == queue[..n];
    forall t | g.from <= t < g.end && a.requests[t].sync ensures g.sync {
      assert queue[t - a.head] == a.requests[t];
    }
    forall g | GroupOk(a, g) ensures GroupOk(b, g) { }
  }

  lemma SameRequests(a: Sys, b: Sys)
    requires b.requests == a.requests
    ensures forall g :: GroupOk(a, g) ==> GroupOk(b, g)
  {
  }

  lemma GroupSpan(s: Sys, g: Group)
    requires GroupOk(s, g)
    ensures g.from < g.end <= |s.requests|
  {
  }

  lemma RefuseOk(a: Sys, b: Sys)
    requires Inv(a) && Next(a, b, Refuse)
    ensures Inv(b)
  {
    hide AllOps, GroupOk;
    SameRequests(a, b);
  }

  lemma LandOk(a: Sys, b: Sys, s: Step)
    requires Inv(a) && s.Land? && Next(a, b, s)
    ensures Inv(b)
  {
    hide AllOps, GroupOk;
    var g := a.flight.g;
    SameRequests(a, b);
    GroupSpan(a, g);
    forall t | 0 <= t < b.head && b.status[t].Ok? && b.requests[t].batch.Some? ensures InLog(b.log, t) {
      if t < a.head {
        var i :| 0 <= i < |a.log| && a.log[i].from <= t < a.log[i].end;
        assert b.log[i] == a.log[i];
      } else {
        assert b.log[|a.log|] == g;
      }
    }
  }

  lemma NextOk(a: Sys, b: Sys, s: Step)
    requires Inv(a) && Next(a, b, s)
    ensures Inv(b)
  {
    hide Inv;
    match s
    case Arrive(_) => ArriveOk(a, b, s);
    case Lead => LeadOk(a, b);
    case Refuse => RefuseOk(a, b);
    case Land(_) => LandOk(a, b, s);
  }

  // ---------- every run ----------

  ghost predicate Run(states: seq<Sys>, steps: seq<Step>) {
    && |states| == |steps| + 1
    && states[0] == Sys([], [], 0, Grounded, 0, [], false)
    && forall i :: 0 <= i < |steps| ==> Next(states[i], states[i + 1], steps[i])
  }

  lemma {:induction false} EveryRunKeepsInv(states: seq<Sys>, steps: seq<Step>, i: nat)
    requires Run(states, steps) && i < |states|
    ensures Inv(states[i])
  {
    hide Next;
    if i > 0 {
      EveryRunKeepsInv(states, steps, i - 1);
      NextOk(states[i - 1], states[i], steps[i - 1]);
    }
  }

  /** The record that holds a writer's batch. */
  ghost predicate LoggedIn(s: Sys, t: nat, i: nat) {
    i < |s.log| && s.log[i].from <= t < s.log[i].end
  }

  /** A batch is in at most one record of the log, and in one if its writer was told it succeeded; a writer still
      waiting, and not under way, has nothing in the log. */
  lemma LoggedAtMostOnce(states: seq<Sys>, steps: seq<Step>, n: nat, t: nat)
    requires Run(states, steps) && n < |states| && t < |states[n].requests|
    ensures forall i: nat, j: nat :: LoggedIn(states[n], t, i) && LoggedIn(states[n], t, j) ==> i == j
    ensures t < |states[n].status|
    ensures states[n].status[t].Ok? && states[n].requests[t].batch.Some? ==> exists i: nat :: LoggedIn(states[n], t, i)
    ensures states[n].status[t].Waiting? ==> forall i: nat :: !LoggedIn(states[n], t, i)
  {
    hide Next, GroupOk;
    EveryRunKeepsInv(states, steps, n);
    var s := states[n];
    assert GroupsOrdered(s.log);
    if s.status[t].Ok? && s.requests[t].batch.Some? {
      var i :| 0 <= i < |s.log| && s.log[i].from <= t < s.log[i].end;
      assert LoggedIn(s, t, i);
    }
  }

  /** No number is given to two operations of the log, whatever failed in between, and later records have larger
      ones. */
  lemma NumbersNeverRepeat(states: seq<Sys>, steps: seq<Step>, n: nat, i: nat, j: nat, x: nat, y: nat)
    requires Run(states, steps) && n < |states| && i < |states[n].log| && j < |states[n].log|
    requires x < |states[n].log[i].ops| && y < |states[n].log[j].ops|
    ensures Numbered(states[n].log[i].first, states[n].log[i].ops)[x].0 == states[n].log[i].first + x
    ensures i < j ==> states[n].log[i].first + x < states[n].log[j].first + y
    ensures states[n].log[i].first + x == states[n].log[j].first + y ==> i == j && x == y
    ensures 1 <= states[n].log[i].first + x <= states[n].lastSequence
  {
    hide Next;
    EveryRunKeepsInv(states, steps, n);
    var s := states[n];
    if i < j { assert s.log[i].first + |s.log[i].ops| <= s.log[j].first; }
    if j < i { assert s.log[j].first + |s.log[j].ops| <= s.log[i].first; }
  }

  /** Iterating the record of a group yields the operations of its writers in the order they arrived, under consecutive
      numbers; and no writer that asked for a sync is in a record whose leader did not. */
  lemma RecordHoldsItsWriters(states: seq<Sys>, steps: seq<Step>, n: nat, i: nat)
    requires Run(states, steps) && n < |states| && i < |states[n].log|
    requires states[n].log[i].first < TWO64 && forall k :: 0 <= k < |states[n].log[i].ops| ==>
      Sound(states[n].log[i].ops[k])
    ensures var s, g := states[n], states[n].log[i];
      && g.from < g.end <= |s.requests|
      && IterateRep(Rep(g.first, g.ops)) == Visit(AllOps(s.requests[g.from..g.end]), None)
      && Sequence(Rep(g.first, g.ops)) == g.first
      && forall t :: g.from <= t < g.end && s.requests[t].sync ==> s.requests[g.from].sync
  {
    hide Next;
    EveryRunKeepsInv(states, steps, n);
    BatchRoundTrip(states[n].log[i].first, states[n].log[i].ops);
  }

  /** A writer's operations lie together in its group, in its own order. */
  lemma {:induction false} OpsLieTogether(rs: seq<Request>, t: nat)
    requires t < |rs|
    ensures |AllOps(rs[..t])| + |OpsOf(rs[t])| <= |AllOps(rs)|
    ensures AllOps(rs)[|AllOps(rs[..t])|..|AllOps(rs[..t])| + |OpsOf(rs[t])|] == OpsOf(rs[t])
    decreases |rs|
  {
    if t < |rs| - 1 {
      assert rs[..|rs| - 1][..t] == rs[..t];
      OpsLieTogether(rs[..|rs| - 1], t);
    }
  }
}

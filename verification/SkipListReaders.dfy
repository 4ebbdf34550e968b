/** The skip list with one writer and a lock-free reader. */
module SkipListReaders {
  // Every store of an insertion and every load of a search is a step of its own, in any interleaving
  // (db/skiplist.h lines 261-322, 337-368).

  import opened Basics
  import opened SkipLists

  /** Where the writer stands: it has found the places before `key`; or it is linking the new node in, the levels below
      `linked` being done and, with `own`, the node's own link at that level set. */
  datatype Writer =
    | Idle
    | Placing(key: Key, height: nat, prev: seq<Place>)
    | Linking(key: Key, height: nat, prev: seq<Place>, linked: nat, own: bool)

  /** A search for the first key at or after `target`, or with none for the end of the list; `x` is the last place
      passed. When done, `next` is the key found at or after the target. */
  datatype Reader =
    | NoSearch
    | Walking(target: Option<Key>, x: Place, level: nat)
    | Done(target: Option<Key>, x: Place, next: Option<Key>)

  datatype Sys = Sys(m: Memory, lists: Lists, w: Writer, r: Reader)

  datatype Step =
    | BeginInsert(key: Key, height: nat, prev: seq<Place>)
    | StoreHeight
    | StoreOwnLink
    | StoreLink
    | BeginSearch(target: Option<Key>, level: nat)
    | LoadNext
    | EndSearch

  predicate Short(next: Option<Key>, target: Option<Key>) {
    next.Some? && (target.Some? ==> next.value < target.value)
  }

  ghost predicate Next(a: Sys, b: Sys, s: Step) {
    match s
    case BeginInsert(key, height, prev) =>
      // the search of FindGreaterOrEqual: nobody else writes, so it sees one state
      && a.w.Idle? && key !in a.lists[0] && 1 <= height <= MAX_HEIGHT && |prev| == MAX_HEIGHT
      && a.m.maxHeight <= MAX_HEIGHT
      && (forall l :: 0 <= l < a.m.maxHeight ==> LastBefore(a.lists[l], key, prev[l]))
      && (forall l :: a.m.maxHeight <= l < MAX_HEIGHT ==> prev[l] == Head)
      && b == a.(w := Placing(key, height, prev))
    case StoreHeight =>
      && a.w.Placing?
      && b == a.(m := a.m.(maxHeight := if a.m.maxHeight < a.w.height then a.w.height else a.m.maxHeight),
                 w := Linking(a.w.key, a.w.height, a.w.prev, 0, false))
    case StoreOwnLink =>
      && a.w.Linking? && !a.w.own && a.w.linked < |a.w.prev| && (a.w.linked, a.w.prev[a.w.linked]) in a.m.next
      && b == a.(m := LinkOwn(a.m, a.w.linked, a.w.prev[a.w.linked], a.w.key), w := a.w.(own := true))
    case StoreLink =>
      && a.w.Linking? && a.w.own && a.w.linked < |a.w.prev| && a.w.linked < MAX_HEIGHT
      && b == a.(m := Publish(a.m, a.w.linked, a.w.prev[a.w.linked], a.w.key),
                 lists := a.lists[a.w.linked := InsertKey(a.lists[a.w.linked], a.w.key)],
                 w := if a.w.linked + 1 == a.w.height then Idle else a.w.(linked := a.w.linked + 1, own := false))
    case BeginSearch(target, level) =>
      // the height may be stale: any height the list has had
      a.r.NoSearch? && level < a.m.maxHeight && b == a.(r := Walking(target, Head, level))
    case LoadNext =>
      && a.r.Walking? && (a.r.level, a.r.x) in a.m.next
      && var next := a.m.next[(a.r.level, a.r.x)];
         b == a.(r :=
           if Short(next, a.r.target) then Walking(a.r.target, Node(next.value), a.r.level)
           else if a.r.level == 0 then Done(a.r.target, a.r.x, next)
           else Walking(a.r.target, a.r.x, a.r.level - 1))
    case EndSearch =>
      a.r.Done? && b == a.(r := NoSearch)
  }

  // ---------- the invariant ----------

  ghost predicate WriterOk(m: Memory, lists: Lists, w: Writer) {
    match w
    case Idle => true
    case Placing(key, height, prev) =>
      && 1 <= height <= MAX_HEIGHT && |prev| == MAX_HEIGHT
      && (forall l :: 0 <= l < MAX_HEIGHT ==> key !in lists[l])
      && (forall l :: 0 <= l < height ==> LastBefore(lists[l], key, prev[l]))
    case Linking(key, height, prev, linked, own) =>
      && linked < height <= m.maxHeight <= MAX_HEIGHT && |prev| == MAX_HEIGHT
      && (forall l :: linked <= l < MAX_HEIGHT ==> key !in lists[l])
      && (forall l :: 0 <= l < linked ==> key in lists[l])
      && (forall l :: linked <= l < height ==> LastBefore(lists[l], key, prev[l]))
      && (own ==>
        (linked, Node(key)) in m.next && m.next[(linked, Node(key))] == Successor(lists[linked], prev[linked]))
  }

  ghost predicate ReaderOk(lists: Lists, r: Reader) {
    match r
    case NoSearch => true
    case Walking(target, x, level) =>
      level < MAX_HEIGHT && OnList(lists[level], x) && (target.Some? ==> Before(x, target.value))
    case Done(target, x, next) =>
      && OnList(lists[0], x) && (next.Some? ==> next.value in lists[0])
      && (target.Some? ==> Before(x, target.value) && (next.Some? ==> target.value <= next.value))
  }

  ghost predicate SysInv(s: Sys) {
    && 1 <= s.m.maxHeight <= MAX_HEIGHT
    && Spells(s.m, s.lists) && WriterOk(s.m, s.lists, s.w) && ReaderOk(s.lists, s.r)
  }

  /** Lists only grow. */
  ghost predicate Grows(a: Lists, b: Lists) {
    forall l :: 0 <= l < MAX_HEIGHT ==> SubList(a[l], b[l])
  }

  lemma ReaderStays(a: Lists, b: Lists, r: Reader)
    requires ReaderOk(a, r) && Grows(a, b)
    ensures ReaderOk(b, r)
  {
    if r.Walking? { assert SubList(a[r.level], b[r.level]); }
    assert SubList(a[0], b[0]);
  }

  lemma BeginInsertOk(a: Sys, b: Sys, s: Step)
    requires SysInv(a) && s.BeginInsert? && Next(a, b, s)
    ensures SysInv(b)
  {
    hide LevelSpells, LastBefore;
    NotAbove(a.m, a.lists, s.key);
    forall l | 0 <= l < s.height ensures LastBefore(a.lists[l], s.key, s.prev[l]) {
      if l >= a.m.maxHeight { HeadBefore(s.key); }
    }
  }

  lemma HeadBefore(key: Key)
    ensures LastBefore([], key, Head)
  {
  }

  lemma StoreHeightOk(a: Sys, b: Sys)
    requires SysInv(a) && Next(a, b, StoreHeight)
    ensures SysInv(b)
  {
    hide LevelSpells, LastBefore, Spells;
    RaiseSpells(a.m, a.lists, b.m.maxHeight);
  }

  lemma StoreOwnLinkOk(a: Sys, b: Sys)
    requires SysInv(a) && Next(a, b, StoreOwnLink)
    ensures SysInv(b)
  {
    hide LevelSpells, LastBefore, Spells, Fits;
    FitsLast(a.m, a.lists, a.w.linked, a.w.key, a.w.prev[a.w.linked]);
  }

  lemma StoreLinkSpells(a: Sys, b: Sys)
    requires SysInv(a) && Next(a, b, StoreLink)
    ensures Spells(b.m, b.lists) && Grows(a.lists, b.lists)
    ensures forall j :: j in b.lists[a.w.linked] <==> j == a.w.key || j in a.lists[a.w.linked]
  {
    hide LevelSpells, LastBefore, Spells, Fits, InsertKey, Successor;
    var l := a.w.linked;
    FitsLast(a.m, a.lists, l, a.w.key, a.w.prev[l]);
    PublishSpells(a.m, a.lists, l, a.w.prev[l], a.w.key);
    InsertKeyIsOn(a.m, a.lists, l, a.w.key);
  }

  /** After every single publication the list is a skip list again, and the search goes on where it stands. */
  lemma StoreLinkOk(a: Sys, b: Sys)
    requires SysInv(a) && Next(a, b, StoreLink)
    ensures SysInv(b) && Grows(a.lists, b.lists)
  {
    hide LevelSpells, LastBefore, Spells, InsertKey, Successor;
    StoreLinkSpells(a, b);
    ReaderStays(a.lists, b.lists, a.r);
  }

  lemma LoadNextOk(a: Sys, b: Sys)
    requires SysInv(a) && Next(a, b, LoadNext)
    ensures SysInv(b)
    ensures b.r.Done? ==> SeesAll(b.lists[0], b.r)
  {
    hide Sorted, Successor, WriterOk;
    var r := a.r;
    assert LevelSpells(a.m, r.level, a.lists[r.level]);
    SuccessorIs(a.lists[r.level], r.x);
    if !Short(a.m.next[(r.level, r.x)], r.target) && r.level > 0 {
      assert SubList(a.lists[r.level], a.lists[r.level - 1]);
    }
  }

  lemma NextOk(a: Sys, b: Sys, s: Step)
    requires SysInv(a) && Next(a, b, s)
    ensures SysInv(b) && Grows(a.lists, b.lists)
  {
    hide SysInv;
    match s
    case BeginInsert(_, _, _) => BeginInsertOk(a, b, s);
    case StoreHeight => StoreHeightOk(a, b);
    case StoreOwnLink => StoreOwnLinkOk(a, b);
    case StoreLink => StoreLinkOk(a, b);
    case BeginSearch(_, _) => BeginSearchOk(a, b, s);
    case LoadNext => LoadNextOk(a, b);
    case EndSearch => EndSearchOk(a, b);
  }

  lemma BeginSearchOk(a: Sys, b: Sys, s: Step)
    requires SysInv(a) && s.BeginSearch? && Next(a, b, s)
    ensures SysInv(b)
  {
    hide Spells, WriterOk;
  }

  lemma EndSearchOk(a: Sys, b: Sys)
    requires SysInv(a) && Next(a, b, EndSearch)
    ensures SysInv(b)
  {
    hide Spells, WriterOk;
  }

  // ---------- every run ----------

  ghost predicate Init(s: Sys) {
    && s.m == Memory(map l: nat | l < MAX_HEIGHT :: (l, Head) := None, 1)
    && s.lists == seq(MAX_HEIGHT, _ => [])
    && s.w == Idle && s.r == NoSearch
  }

  ghost predicate Run(states: seq<Sys>, steps: seq<Step>) {
    && |states| == |steps| + 1
    && Init(states[0])
    && forall i :: 0 <= i < |steps| ==> Next(states[i], states[i + 1], steps[i])
  }

  /** In every state of every run each level is strictly sorted and a sublist of the one below. */
  lemma {:induction false} EveryRunKeepsLists(states: seq<Sys>, steps: seq<Step>, i: nat)
    requires Run(states, steps) && i < |states|
    ensures SysInv(states[i])
  {
    hide Next, SysInv;
    if i == 0 {
      InitOk(states[0]);
    } else {
      EveryRunKeepsLists(states, steps, i - 1);
      NextOk(states[i - 1], states[i], steps[i - 1]);
    }
  }

  lemma InitOk(s: Sys)
    requires Init(s)
    ensures SysInv(s)
  {
    forall l | 0 <= l < MAX_HEIGHT ensures LevelSpells(s.m, l, s.lists[l]) {
    }
  }

  /** Of these keys the finished search has skipped none: the key it found is not after any of them at or past the
      target, and the last place it passed is not before any of them short of it. */
  ghost predicate SeesAll(base: seq<Key>, r: Reader) {
    r.Done? ==>
      forall k :: k in base ==>
        if r.target.Some? && r.target.value <= k then r.next.Some? && r.next.value <= k else !Before(r.x, k)
  }

  lemma SeesFewer(base: seq<Key>, all: seq<Key>, r: Reader)
    requires SeesAll(all, r) && SubList(base, all)
    ensures SeesAll(base, r)
  {
  }

  lemma {:induction false} ListsGrow(states: seq<Sys>, steps: seq<Step>, i: nat, j: nat)
    requires Run(states, steps) && i <= j < |states|
    ensures SubList(states[i].lists[0], states[j].lists[0])
    decreases j
  {
    hide Next, SysInv;
    if i < j {
      ListsGrow(states, steps, i, j - 1);
      EveryRunKeepsLists(states, steps, j - 1);
      NextOk(states[j - 1], states[j], steps[j - 1]);
      assert SubList(states[j - 1].lists[0], states[j].lists[0]);
    }
  }

  /** A search that began in state `i` and is finished in state `j`, whatever was inserted in between, found a key at or
      after its target, and skipped no key that was present when it began. */
  lemma {:induction false} SearchSkipsNothing(states: seq<Sys>, steps: seq<Step>, i: nat, j: nat)
    requires Run(states, steps) && i < j < |states| && steps[i].BeginSearch?
    requires forall k :: i < k < j ==> !steps[k].BeginSearch? && !steps[k].EndSearch?
    ensures states[j].r.Walking? || states[j].r.Done?
    ensures states[j].r.target == steps[i].target
    ensures SeesAll(states[i].lists[0], states[j].r)
    ensures states[j].r.Done? && states[j].r.next.Some? ==>
      && states[j].r.next.value in states[j].lists[0]
      && (steps[i].target.Some? ==> steps[i].target.value <= states[j].r.next.value)
    decreases j
  {
    hide SysInv, SeesAll;
    EveryRunKeepsLists(states, steps, j);
    ResultIsThere(states[j]);
    if j == i + 1 {
      NotDone(states[i].lists[0], states[j].r);
    } else {
      SearchSkipsNothing(states, steps, i, j - 1);
      if steps[j - 1].LoadNext? {
        EveryRunKeepsLists(states, steps, j - 1);
        LoadNextOk(states[j - 1], states[j]);
        ListsGrow(states, steps, i, j);
        if states[j].r.Done? {
          SeesFewer(states[i].lists[0], states[j].lists[0], states[j].r);
        } else {
          NotDone(states[i].lists[0], states[j].r);
        }
      }
    }
  }

  lemma NotDone(base: seq<Key>, r: Reader)
    ensures !r.Done? ==> SeesAll(base, r)
  {
  }

  lemma ResultIsThere(s: Sys)
    requires SysInv(s)
    ensures s.r.Done? && s.r.next.Some? ==>
      s.r.next.value in s.lists[0] && (s.r.target.Some? ==> s.r.target.value <= s.r.next.value)
  {
    hide Spells, WriterOk;
  }
}

/** The skip list. */
module SkipLists {
  // Its links as a memory of pointers, the searches, and insertion link by link (db/skiplist.h lines 167-390).

  import opened Basics

  /** A key stands for its rank under the comparator. */
  type Key = real

  const MAX_HEIGHT: nat := 12

  /** A node, named by its key, or the head. */
  datatype Place = Head | Node(key: Key)

  /** The link of every node at every level, and the height of the list. */
  datatype Memory = Memory(next: map<(nat, Place), Option<Key>>, maxHeight: nat)

  predicate Before(p: Place, k: Key) {
    p.Head? || p.key < k
  }

  ghost predicate Sorted(list: seq<Key>) {
    forall i, j :: 0 <= i < j < |list| ==> list[i] < list[j]
  }

  /** The first key of a sorted list after a place. */
  function Successor(list: seq<Key>, p: Place): Option<Key> {
    if list == [] then None
    else if Before(p, list[0]) then Some(list[0])
    else Successor(list[1..], p)
  }

  ghost predicate OnList(list: seq<Key>, p: Place) {
    p.Head? || p.key in list
  }

  type Lists = s: seq<seq<Key>> | |s| == MAX_HEIGHT witness seq(MAX_HEIGHT, _ => [])

  /** The links at one level chain its list together. */
  ghost predicate LevelSpells(m: Memory, level: nat, list: seq<Key>) {
    Sorted(list) && forall p :: OnList(list, p) ==> (level, p) in m.next && m.next[(level, p)] == Successor(list, p)
  }

  ghost predicate SubList(upper: seq<Key>, lower: seq<Key>) {
    forall k :: k in upper ==> k in lower
  }

  /** Every level is strictly sorted, each is a sublist of the one below, and the links spell them. */
  ghost predicate Spells(m: Memory, lists: Lists) {
    && 1 <= m.maxHeight <= MAX_HEIGHT
    && (forall l :: 0 <= l < MAX_HEIGHT ==> LevelSpells(m, l, lists[l]))
    && (forall l, u :: 0 <= l < u < MAX_HEIGHT ==> SubList(lists[u], lists[l]))
    && (forall l :: m.maxHeight <= l < MAX_HEIGHT ==> lists[l] == [])
  }

  // ---------- successors ----------

  lemma {:induction false} SuccessorIs(list: seq<Key>, p: Place)
    requires Sorted(list)
    ensures var s := Successor(list, p);
      && (s.Some? ==> s.value in list && Before(p, s.value) && forall k :: k in list && Before(p, k) ==> s.value <= k)
      && (s.None? ==> forall k :: k in list ==> !Before(p, k))
  {
    if list != [] {
      assert list == [list[0]] + list[1..];
      if !Before(p, list[0]) { SuccessorIs(list[1..], p); }
    }
  }

  lemma SuccessorUnique(list: seq<Key>, p: Place, s: Option<Key>)
    requires Sorted(list)
    requires s.Some? ==> s.value in list && Before(p, s.value) && forall k :: k in list && Before(p, k) ==> s.value <= k
    requires s.None? ==> forall k :: k in list ==> !Before(p, k)
    ensures s == Successor(list, p)
  {
    SuccessorIs(list, p);
  }

  function InsertKey(list: seq<Key>, k: Key): seq<Key> {
    if list == [] || k < list[0] then [k] + list else [list[0]] + InsertKey(list[1..], k)
  }

  lemma {:induction false} InsertKeyIs(list: seq<Key>, k: Key)
    requires Sorted(list) && k !in list
    ensures Sorted(InsertKey(list, k)) && forall j :: j in InsertKey(list, k) <==> j == k || j in list
  {
    hide Sorted;
    if list == [] || k < list[0] {
      SortedFirst(list);
      SortedCons(k, list);
    } else {
      var rest := InsertKey(list[1..], k);
      SortedFirst(list);
      InsertKeyIs(list[1..], k);
      SortedCons(list[0], rest);
    }
  }

  lemma SortedFirst(list: seq<Key>)
    requires Sorted(list)
    ensures list != [] ==> Sorted(list[1..]) && list == [list[0]] + list[1..]
    ensures forall j :: j in list ==> list[0] <= j
    ensures list != [] ==> forall j :: j in list[1..] ==> list[0] < j
  {
  }

  lemma SortedCons(k: Key, list: seq<Key>)
    requires Sorted(list) && forall j :: j in list ==> k < j
    ensures Sorted([k] + list)
  {
    assert forall i :: 0 <= i < |list| ==> list[i] in list;
  }

  /** `p` is where `k` belongs in the list. */
  ghost predicate Fits(list: seq<Key>, p: Place, k: Key) {
    && OnList(list, p) && Before(p, k) && k !in list
    && forall j :: j in list ==> (j < k <==> !Before(p, j))
  }

  /** Linking `k` in after `p` changes the successor of `p` alone. */
  lemma SuccessorAfterInsert(list: seq<Key>, p: Place, k: Key, q: Place)
    requires Sorted(list) && Fits(list, p, k) && OnList(list, q)
    ensures Successor(InsertKey(list, k), Node(k)) == Successor(list, p)
    ensures Successor(InsertKey(list, k), q) == if q == p then Some(k) else Successor(list, q)
  {
    var after := InsertKey(list, k);
    InsertKeyIs(list, k);
    SuccessorIs(list, p);
    SuccessorIs(list, q);
    SuccessorUnique(after, Node(k), Successor(list, p));
    SuccessorUnique(after, q, if q == p then Some(k) else Successor(list, q));
  }

  // ---------- the stores of an insertion ----------

  /** NoBarrier_SetNext: the new node's own link, not yet reachable. */
  function LinkOwn(m: Memory, level: nat, p: Place, k: Key): Memory
    requires (level, p) in m.next
  {
    m.(next := m.next[(level, Node(k)) := m.next[(level, p)]])
  }

  /** SetNext: the one store that makes the node part of the level. */
  function Publish(m: Memory, level: nat, p: Place, k: Key): Memory {
    m.(next := m.next[(level, p) := Some(k)])
  }

  lemma LinkOwnSpells(m: Memory, lists: Lists, level: nat, p: Place, k: Key)
    requires Spells(m, lists) && level < MAX_HEIGHT && (level, p) in m.next && k !in lists[level]
    ensures Spells(LinkOwn(m, level, p, k), lists)
  {
    hide Sorted, Successor;
    var m' := LinkOwn(m, level, p, k);
    forall l | 0 <= l < MAX_HEIGHT ensures LevelSpells(m', l, lists[l]) {
      assert LevelSpells(m, l, lists[l]);
    }
  }

  lemma PublishLevel(m: Memory, level: nat, list: seq<Key>, p: Place, k: Key)
    requires LevelSpells(m, level, list) && Fits(list, p, k)
    requires (level, Node(k)) in m.next && m.next[(level, Node(k))] == Successor(list, p)
    ensures LevelSpells(Publish(m, level, p, k), level, InsertKey(list, k))
  {
    hide Successor;
    var m', after := Publish(m, level, p, k), InsertKey(list, k);
    InsertKeyIs(list, k);
    forall q | OnList(after, q) ensures (level, q) in m'.next && m'.next[(level, q)] == Successor(after, q) {
      if q == Node(k) {
        SuccessorAfterInsert(list, p, k, p);
      } else {
        SuccessorAfterInsert(list, p, k, q);
      }
    }
  }

  /** One publication keeps every level sorted and every level a sublist of the one below. */
  lemma PublishSpells(m: Memory, lists: Lists, level: nat, p: Place, k: Key)
    requires Spells(m, lists) && level < m.maxHeight && Fits(lists[level], p, k)
    requires (level, Node(k)) in m.next && m.next[(level, Node(k))] == Successor(lists[level], p)
    requires level > 0 ==> k in lists[level - 1]
    ensures Spells(Publish(m, level, p, k), lists[level := InsertKey(lists[level], k)])
  {
    hide Sorted, Successor, InsertKey;
    var m', lists' := Publish(m, level, p, k), lists[level := InsertKey(lists[level], k)];
    InsertKeyIsOn(m, lists, level, k);
    forall l | 0 <= l < MAX_HEIGHT ensures LevelSpells(m', l, lists'[l]) {
      assert LevelSpells(m, l, lists[l]);
      if l == level { PublishLevel(m, l, lists[l], p, k); }
    }
  }

  lemma InsertKeyIsOn(m: Memory, lists: Lists, level: nat, k: Key)
    requires Spells(m, lists) && level < MAX_HEIGHT && k !in lists[level]
    ensures forall j :: j in InsertKey(lists[level], k) <==> j == k || j in lists[level]
  {
    assert LevelSpells(m, level, lists[level]);
    InsertKeyIs(lists[level], k);
  }

  // ---------- the class ----------

  class SkipList {
    var memory: Memory
    ghost var lists: Lists

    ghost predicate Valid()
      reads this
    {
      Spells(memory, lists)
    }

    /** The keys in order. */
    ghost function Keys(): seq<Key>
      reads this
    {
      lists[0]
    }

    constructor ()
      ensures Valid() && Keys() == []
    {
      memory := Memory(map l: nat | l < MAX_HEIGHT :: (l, Head) := None, 1);
      lists := seq(MAX_HEIGHT, _ => []);
    }

    /** The earliest key at or after `key`, and at every level of the list the place before it. */
    method FindGreaterOrEqual(key: Key) returns (r: Option<Key>, prev: seq<Place>)
      requires Valid()
      ensures AtOrAfter(Keys(), key, r)
      ensures |prev| == MAX_HEIGHT
      ensures forall l :: 0 <= l < memory.maxHeight ==> LastBefore(lists[l], key, prev[l])
    {
      hide Sorted, Successor;
      var x := Head;
      var level := memory.maxHeight - 1;
      prev := seq(MAX_HEIGHT, _ => Head);
      while true
        invariant 0 <= level < memory.maxHeight && OnList(lists[level], x) && Before(x, key)
        invariant |prev| == MAX_HEIGHT
        invariant forall l :: level < l < memory.maxHeight ==> LastBefore(lists[l], key, prev[l])
        decreases level, Remaining(lists[level], x)
      {
        assert LevelSpells(memory, level, lists[level]);
        SuccessorIs(lists[level], x);
        var next := memory.next[(level, x)];
        if next.Some? && next.value < key {
          FewerRemain(lists[level], x, next.value);
          x := Node(next.value);
        } else {
          prev := prev[level := x];
          if level == 0 {
            r := next;
            return;
          }
          level := level - 1;
        }
      }
    }

    /** The last place before `key`. */
    method FindLessThan(key: Key) returns (x: Place)
      requires Valid()
      ensures LastBefore(Keys(), key, x)
    {
      hide Sorted, Successor;
      x := Head;
      var level := memory.maxHeight - 1;
      while true
        invariant 0 <= level < memory.maxHeight && OnList(lists[level], x) && Before(x, key)
        decreases level, Remaining(lists[level], x)
      {
        assert LevelSpells(memory, level, lists[level]);
        SuccessorIs(lists[level], x);
        var next := memory.next[(level, x)];
        if next.None? || next.value >= key {
          if level == 0 {
            return;
          }
          level := level - 1;
        } else {
          FewerRemain(lists[level], x, next.value);
          x := Node(next.value);
        }
      }
    }

    /** The last place of the list. */
    method FindLast() returns (x: Place)
      requires Valid()
      ensures OnList(Keys(), x) && forall k :: k in Keys() ==> !Before(x, k)
    {
      hide Sorted, Successor;
      x := Head;
      var level := memory.maxHeight - 1;
      while true
        invariant 0 <= level < memory.maxHeight && OnList(lists[level], x)
        decreases level, Remaining(lists[level], x)
      {
        assert LevelSpells(memory, level, lists[level]);
        SuccessorIs(lists[level], x);
        var next := memory.next[(level, x)];
        if next.None? {
          if level == 0 {
            return;
          }
          level := level - 1;
        } else {
          FewerRemain(lists[level], x, next.value);
          x := Node(next.value);
        }
      }
    }

    method Contains(key: Key) returns (r: bool)
      requires Valid()
      ensures r <==> key in Keys()
    {
      var x, _ := FindGreaterOrEqual(key);
      r := x.Some? && x.value == key;
    }

    /** Inserts `key` with a tower of the given height, one link at a time from the bottom. */
    method Insert(key: Key, height: nat)
      requires Valid() && key !in Keys() && 1 <= height <= MAX_HEIGHT
      modifies this
      ensures Valid() && Keys() == InsertKey(old(Keys()), key)
      ensures forall l :: 0 <= l < MAX_HEIGHT ==>
        lists[l] == if l < height then InsertKey(old(lists[l]), key) else old(lists[l])
    {
      hide Sorted, Successor, InsertKey, Spells, LastBefore, Fits;
      var _, prev := FindGreaterOrEqual(key);
      NotAbove(memory, lists, key);
      prev := RaiseHeight(key, height, prev);
      for i := 0 to height
        invariant Valid() && height <= memory.maxHeight
        invariant forall l :: 0 <= l < MAX_HEIGHT ==>
          lists[l] == if l < i then InsertKey(old(lists[l]), key) else old(lists[l])
      {
        if i > 0 { InsertedBelow(old(lists[i - 1]), key); }
        FitsLast(memory, lists, i, key, prev[i]);
        memory := LinkOwn(memory, i, prev[i], key);
        PublishSpells(memory, lists, i, prev[i], key);
        memory := Publish(memory, i, prev[i], key);
        lists := lists[i := InsertKey(lists[i], key)];
      }
    }

    /** Makes the list as high as the new node; the new levels start at the head. */
    method RaiseHeight(key: Key, height: nat, prev0: seq<Place>) returns (prev: seq<Place>)
      requires Valid() && |prev0| == MAX_HEIGHT && 1 <= height <= MAX_HEIGHT
      requires forall l :: 0 <= l < memory.maxHeight ==> LastBefore(lists[l], key, prev0[l])
      modifies this
      ensures Valid() && lists == old(lists) && height <= memory.maxHeight && |prev| == MAX_HEIGHT
      ensures forall l :: 0 <= l < height ==> LastBefore(lists[l], key, prev[l])
    {
      hide Sorted, Successor, LevelSpells;
      prev := prev0;
      if height > memory.maxHeight {
        for i := memory.maxHeight to height
          invariant |prev| == MAX_HEIGHT
          invariant forall l :: 0 <= l < i ==> LastBefore(lists[l], key, prev[l])
        {
          assert lists[i] == [];
          prev := prev[i := Head];
        }
        RaiseSpells(memory, lists, height);
        memory := memory.(maxHeight := height);
      }
    }
  }

  ghost predicate AtOrAfter(list: seq<Key>, key: Key, r: Option<Key>) {
    && (r.Some? ==> r.value in list && key <= r.value && forall k :: k in list && key <= k ==> r.value <= k)
    && (r.None? ==> forall k :: k in list ==> k < key)
  }

  /** The last place of the list before `key`. */
  ghost predicate LastBefore(list: seq<Key>, key: Key, p: Place) {
    OnList(list, p) && Before(p, key) && forall k :: k in list ==> (k < key <==> !Before(p, k))
  }

  /** How many keys of the list come after a place. */
  function Remaining(list: seq<Key>, p: Place): nat {
    if list == [] then 0 else (if Before(p, list[0]) then 1 else 0) + Remaining(list[1..], p)
  }

  lemma {:induction false} FewerRemain(list: seq<Key>, p: Place, k: Key)
    requires Before(p, k)
    ensures Remaining(list, Node(k)) <= Remaining(list, p)
    ensures k in list ==> Remaining(list, Node(k)) < Remaining(list, p)
  {
    if list != [] {
      FewerRemain(list[1..], p, k);
      assert list == [list[0]] + list[1..];
    }
  }

  lemma NotAbove(m: Memory, lists: Lists, key: Key)
    requires Spells(m, lists) && key !in lists[0]
    ensures forall l :: 0 <= l < MAX_HEIGHT ==> key !in lists[l]
  {
    forall l | 0 <= l < MAX_HEIGHT ensures key !in lists[l] {
      assert l > 0 ==> SubList(lists[l], lists[0]);
    }
  }

  lemma RaiseSpells(m: Memory, lists: Lists, height: nat)
    requires Spells(m, lists) && m.maxHeight <= height <= MAX_HEIGHT
    ensures Spells(m.(maxHeight := height), lists)
  {
    hide Sorted, Successor;
    forall l | 0 <= l < MAX_HEIGHT ensures LevelSpells(m.(maxHeight := height), l, lists[l]) {
      assert LevelSpells(m, l, lists[l]);
    }
  }

  lemma FitsLast(m: Memory, lists: Lists, level: nat, key: Key, p: Place)
    requires Spells(m, lists) && level < MAX_HEIGHT && key !in lists[level] && LastBefore(lists[level], key, p)
    ensures Fits(lists[level], p, key) && (level, p) in m.next && m.next[(level, p)] == Successor(lists[level], p)
    ensures var m' := LinkOwn(m, level, p, key);
      && Spells(m', lists)
      && (level, Node(key)) in m'.next && m'.next[(level, Node(key))] == Successor(lists[level], p)
  {
    hide Successor, Sorted;
    assert LevelSpells(m, level, lists[level]);
    LinkOwnSpells(m, lists, level, p, key);
  }

  lemma {:induction false} InsertedBelow(list: seq<Key>, k: Key)
    ensures k in InsertKey(list, k)
  {
    if !(list == [] || k < list[0]) { InsertedBelow(list[1..], k); }
  }
}

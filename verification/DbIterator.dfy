/** DBIter: the two-way iterator over what a snapshot sees. */
module DbIterator {
  // It refines a cursor over the sorted list of live keys (db/db_iter.cc lines 141-299).

  import opened Basics
  import opened DbFormat

  // ---------- the snapshot view ----------

  ghost predicate Seen(es: seq<Entry>, s: Sequence, i: nat)
    requires i < |es|
  {
    es[i].ikey.seqno <= s
  }

  /** The newest visible entry of its key, and not a tombstone. */
  ghost predicate Live(es: seq<Entry>, s: Sequence, i: nat)
    requires i < |es|
  {
    && Seen(es, s, i) && es[i].ikey.kind.Value?
    && forall j :: 0 <= j < i && es[j].ikey.user == es[i].ikey.user ==> !Seen(es, s, j)
  }

  /** The live entries among the first `n`. */
  ghost function View(es: seq<Entry>, s: Sequence, n: nat): seq<Entry>
    requires n <= |es|
  {
    if n == 0 then [] else View(es, s, n - 1) + (if Live(es, s, n - 1) then [es[n - 1]] else [])
  }

  ghost predicate NoneLive(es: seq<Entry>, s: Sequence, from: nat, to: nat)
    requires to <= |es|
  {
    forall i :: from <= i < to ==> !Live(es, s, i)
  }

  lemma {:induction false} ViewSame(es: seq<Entry>, s: Sequence, i: nat, j: nat)
    requires i <= j <= |es| && NoneLive(es, s, i, j)
    ensures View(es, s, j) == View(es, s, i)
    decreases j
  {
    if i < j { ViewSame(es, s, i, j - 1); }
  }

  lemma {:induction false} ViewGrows(es: seq<Entry>, s: Sequence, i: nat, j: nat)
    requires i <= j <= |es|
    ensures View(es, s, i) <= View(es, s, j)
    decreases j
  {
    if i < j { ViewGrows(es, s, i, j - 1); }
  }

  /** A live entry stands in the view right after the live entries before it. */
  lemma ViewAt(es: seq<Entry>, s: Sequence, i: nat, n: nat)
    requires i < n <= |es| && Live(es, s, i)
    ensures |View(es, s, i)| < |View(es, s, n)| && View(es, s, n)[|View(es, s, i)|] == es[i]
  {
    ViewGrows(es, s, i + 1, n);
  }

  lemma SuccessorRank(es: seq<Entry>, s: Sequence, i: nat)
    requires i < |es| && Live(es, s, i)
    ensures |View(es, s, i + 1)| == |View(es, s, i)| + 1
  {
  }

  lemma {:induction false} ViewElement(es: seq<Entry>, s: Sequence, n: nat, p: nat) returns (i: nat)
    requires n <= |es| && p < |View(es, s, n)|
    ensures i < n && Live(es, s, i) && |View(es, s, i)| == p && View(es, s, n)[p] == es[i]
  {
    if p < |View(es, s, n - 1)| {
      i := ViewElement(es, s, n - 1, p);
    } else {
      i := n - 1;
    }
  }

  /** Of one key at most one entry is live, and live entries have increasing keys. */
  lemma LiveOrder(es: seq<Entry>, s: Sequence, i: nat, j: nat)
    requires Sorted(es) && i < j < |es| && Live(es, s, j) && Seen(es, s, i)
    ensures es[i].ikey.user < es[j].ikey.user
  {
    assert Less(es[i].ikey, es[j].ikey);
  }

  lemma SortedUsers(es: seq<Entry>, i: nat, j: nat)
    requires Sorted(es) && i <= j < |es|
    ensures es[i].ikey.user <= es[j].ikey.user
  {
    if i < j { assert Less(es[i].ikey, es[j].ikey); }
  }

  lemma ViewIncreases(es: seq<Entry>, s: Sequence, p: nat, q: nat)
    requires Sorted(es) && p < q < |View(es, s, |es|)|
    ensures View(es, s, |es|)[p].ikey.user < View(es, s, |es|)[q].ikey.user
  {
    hide Sorted, Live;
    var i := ViewElement(es, s, |es|, p);
    var j := ViewElement(es, s, |es|, q);
    if j < i {
      ViewGrows(es, s, j, i);
    } else if i < j {
      LiveSeen(es, s, i);
      LiveOrder(es, s, i, j);
    }
  }

  lemma LiveSeen(es: seq<Entry>, s: Sequence, i: nat)
    requires i < |es| && Live(es, s, i)
    ensures Seen(es, s, i)
  {
  }

  lemma ViewReads(es: seq<Entry>, s: Sequence, e: Entry)
    requires Sorted(es) && Unique(SetOf(es)) && e in View(es, s, |es|)
    ensures ReadAt(SetOf(es), e.ikey.user, s) == Some(e.value)
  {
    var p :| 0 <= p < |View(es, s, |es|)| && View(es, s, |es|)[p] == e;
    var i := ViewElement(es, s, |es|, p);
    LiveIsNewest(es, s, i);
  }

  lemma ReadInView(es: seq<Entry>, s: Sequence, k: UserKey) returns (e: Entry)
    requires Sorted(es) && Unique(SetOf(es)) && ReadAt(SetOf(es), k, s).Some?
    ensures e in View(es, s, |es|) && e.ikey.user == k
  {
    e := Newest(SetOf(es), k, s).value;
    assert IsNewest(SetOf(es), k, s, e) && Visible(e, k, s);
    var i :| 0 <= i < |es| && es[i] == e;
    NewestIsLive(es, s, i);
    ViewAt(es, s, i, |es|);
  }

  /** The view lists exactly the keys the snapshot reads as present, in increasing order, with their values. */
  lemma ViewIsSnapshot(es: seq<Entry>, s: Sequence)
    requires Sorted(es) && Unique(SetOf(es))
    ensures var view := View(es, s, |es|);
      && (forall p, q :: 0 <= p < q < |view| ==> view[p].ikey.user < view[q].ikey.user)
      && (forall e :: e in view ==> ReadAt(SetOf(es), e.ikey.user, s) == Some(e.value))
      && (forall k :: ReadAt(SetOf(es), k, s).Some? ==> exists e :: e in view && e.ikey.user == k)
  {
    hide View, Sorted, Unique, ReadAt;
    var view := View(es, s, |es|);
    forall p, q | 0 <= p < q < |view| ensures view[p].ikey.user < view[q].ikey.user {
      ViewIncreases(es, s, p, q);
    }
    forall e | e in view ensures ReadAt(SetOf(es), e.ikey.user, s) == Some(e.value) {
      ViewReads(es, s, e);
    }
    forall k | ReadAt(SetOf(es), k, s).Some? ensures exists e :: e in view && e.ikey.user == k {
      var e := ReadInView(es, s, k);
    }
  }

  lemma LiveIsNewest(es: seq<Entry>, s: Sequence, i: nat)
    requires Sorted(es) && Unique(SetOf(es)) && i < |es| && Live(es, s, i)
    ensures ReadAt(SetOf(es), es[i].ikey.user, s) == Some(es[i].value)
  {
    forall f | f in SetOf(es) && Visible(f, es[i].ikey.user, s) ensures f.ikey.seqno <= es[i].ikey.seqno {
      var j :| 0 <= j < |es| && es[j] == f;
      assert !(j < i);
      if i < j { assert Less(es[i].ikey, es[j].ikey); }
    }
    NewestIs(SetOf(es), es[i].ikey.user, s, es[i]);
  }

  lemma NewestIsLive(es: seq<Entry>, s: Sequence, i: nat)
    requires Sorted(es) && Unique(SetOf(es)) && i < |es| && IsNewest(SetOf(es), es[i].ikey.user, s, es[i])
    requires es[i].ikey.kind.Value?
    ensures Live(es, s, i)
  {
    forall j | 0 <= j < i && es[j].ikey.user == es[i].ikey.user ensures !Seen(es, s, j) {
      assert Less(es[j].ikey, es[i].ikey);
      if Seen(es, s, j) {
        assert es[j] in SetOf(es) && es[i] in SetOf(es);
        assert Visible(es[j], es[i].ikey.user, s);
      }
    }
  }

  // ---------- the abstract cursor ----------

  /** A position in a sorted list, or none. */
  datatype Cursor = Invalid | At(p: nat)

  function CursorAt(view: seq<Entry>, p: int): Cursor {
    if 0 <= p < |view| then At(p) else Invalid
  }

  function CountBelow(view: seq<Entry>, k: UserKey): nat {
    if view == [] then 0
    else CountBelow(view[..|view| - 1], k) + (if view[|view| - 1].ikey.user < k then 1 else 0)
  }

  lemma {:induction false} CountBelowIs(view: seq<Entry>, k: UserKey, n: nat)
    requires n <= |view|
    requires forall p :: 0 <= p < n ==> view[p].ikey.user < k
    requires forall p :: n <= p < |view| ==> k <= view[p].ikey.user
    ensures CountBelow(view, k) == n
  {
    if view != [] {
      CountBelowIs(view[..|view| - 1], k, if n < |view| then n else n - 1);
    }
  }

  /** A seek to the lookup key of `k` leaves exactly the live keys below `k` behind. */
  lemma SeekSkipsBelow(es: seq<Entry>, s: Sequence, k: UserKey, i: nat)
    requires Sorted(es) && IsSeekPos(es, LookupKey(k, s), i)
    ensures |View(es, s, i)| == CountBelow(View(es, s, |es|), k)
    ensures forall j :: 0 <= j < i && Seen(es, s, j) ==> es[j].ikey.user < k
    ensures forall j :: i <= j < |es| && Seen(es, s, j) ==> k <= es[j].ikey.user
  {
    var view, n := View(es, s, |es|), |View(es, s, i)|;
    forall j | 0 <= j < |es| && Seen(es, s, j) ensures j < i <==> es[j].ikey.user < k {
      assert j < i <==> Less(es[j].ikey, LookupKey(k, s));
    }
    ViewGrows(es, s, i, |es|);
    forall p | 0 <= p < |view| ensures p < n <==> view[p].ikey.user < k {
      var j := ViewElement(es, s, |es|, p);
      if j < i { ViewAt(es, s, j, i); } else { ViewGrows(es, s, i, j); }
    }
    CountBelowIs(view, k, n);
  }

  // ---------- the iterator ----------

  datatype Direction = Forward | Reverse

  /** While skipping, the entries from `i` on that are hidden by what came before are those at `skip`;
      among the rest, the live ones are those from `from` on. */
  ghost predicate SkipOk(es: seq<Entry>, s: Sequence, i: nat, skipping: bool, skip: Option<UserKey>, from: nat) {
    && (skipping ==> skip.Some? && forall j :: i <= j < |es| && Seen(es, s, j) ==> skip.value <= es[j].ikey.user)
    && (forall k, j :: 0 <= k < i <= j < |es| && Seen(es, s, k) && es[k].ikey.user == es[j].ikey.user
         ==> skipping && es[j].ikey.user <= skip.value)
    && (forall j :: i <= j < |es| && Live(es, s, j) ==> (from <= j <==> !(skipping && es[j].ikey.user <= skip.value)))
  }

  lemma SkipStep(es: seq<Entry>, s: Sequence, i: nat, skipping: bool, skip: Option<UserKey>, from: nat)
    requires Sorted(es) && i < |es| && SkipOk(es, s, i, skipping, skip, from)
    requires Seen(es, s, i) && es[i].ikey.kind.Value? ==> skipping && es[i].ikey.user <= skip.value
    ensures if Seen(es, s, i) && es[i].ikey.kind.Deletion? then SkipOk(es, s, i + 1, true, Some(es[i].ikey.user), from)
      else SkipOk(es, s, i + 1, skipping, skip, from)
    ensures from <= i ==> !Live(es, s, i)
  {
    forall j | i < j < |es| ensures es[i].ikey.user <= es[j].ikey.user {
      assert Less(es[i].ikey, es[j].ikey);
    }
    forall k | 0 <= k < i ensures es[k].ikey.user <= es[i].ikey.user {
      assert Less(es[k].ikey, es[i].ikey);
    }
  }

  /** What FindNextUserEntry accepts is live. */
  lemma AcceptedIsLive(es: seq<Entry>, s: Sequence, i: nat, skipping: bool, skip: Option<UserKey>, from: nat)
    requires i < |es| && SkipOk(es, s, i, skipping, skip, from)
    requires Seen(es, s, i) && es[i].ikey.kind.Value? && !(skipping && es[i].ikey.user <= skip.value)
    ensures Live(es, s, i) && from <= i
  {
  }

  /** Moving backwards at `i` from `cur`: nothing between them but entries of its key and invisible ones. */
  ghost predicate JustBefore(es: seq<Entry>, s: Sequence, i: int, cur: nat)
    requires cur < |es|
  {
    && -1 <= i < cur
    && (i >= 0 ==> es[i].ikey.user < es[cur].ikey.user)
    && forall j :: i < j < cur ==> es[j].ikey.user == es[cur].ikey.user || !Seen(es, s, j)
  }

  function Index(pos: Option<nat>): int {
    if pos.Some? then pos.value else -1
  }

  /** Scanning backwards at `i`: the last visible entry met, `c`, is the only one in `(i, to)` that may be live,
      and only if it is not a tombstone. */
  ghost predicate ScanOk(es: seq<Entry>, s: Sequence, i: int, to: nat, c: Option<nat>) {
    && -1 <= i < to <= |es|
    && (c.None? ==> NoneLive(es, s, i + 1, to))
    && (c.Some? ==>
         && i < c.value < to
         && Seen(es, s, c.value) && es[c.value].ikey.kind.Value?
         && NoneLive(es, s, c.value + 1, to)
         && forall j :: i < j < c.value ==> !Seen(es, s, j))
  }

  lemma ScanStep(es: seq<Entry>, s: Sequence, i: nat, to: nat, c: Option<nat>)
    requires Sorted(es) && ScanOk(es, s, i, to, c)
    requires Seen(es, s, i) ==> c.Some? ==> es[i].ikey.user >= es[c.value].ikey.user
    ensures ScanOk(es, s, i - 1, to,
      if Seen(es, s, i) then (if es[i].ikey.kind.Value? then Some(i as nat) else None) else c)
  {
    if Seen(es, s, i) {
      if c.Some? {
        assert Less(es[i].ikey, es[c.value].ikey);
        assert !Live(es, s, c.value);
      }
      assert NoneLive(es, s, i + 1, to);
    }
  }

  /** Once a visible entry of a smaller key, or the beginning, is reached, the candidate is settled. */
  lemma ScanSettled(es: seq<Entry>, s: Sequence, i: int, to: nat, c: nat)
    requires Sorted(es) && ScanOk(es, s, i, to, Some(c))
    requires i >= 0 ==> es[i].ikey.user < es[c].ikey.user
    ensures Live(es, s, c) && JustBefore(es, s, i, c)
  {
    forall j | 0 <= j < i ensures es[j].ikey.user < es[c].ikey.user {
      SortedUsers(es, j, i);
    }
  }

  class DBIter {
    const entries: seq<Entry>     // what the internal iterator merges
    const sequence: Sequence
    var pos: Option<nat>          // the internal iterator; None is not valid
    var direction: Direction
    var valid: bool
    var savedKey: Option<UserKey> // None once cleared
    var savedValue: Bytes
    ghost var cur: nat            // where the shown entry stands

    ghost function TheView(): seq<Entry> {
      View(entries, sequence, |entries|)
    }

    /** The abstract cursor the iterator stands for. */
    ghost function Abs(): Cursor
      requires Valid()
      reads this
    {
      if valid then At(|View(entries, sequence, cur)|) else Invalid
    }

    ghost predicate Valid()
      reads this
    {
      && Sorted(entries)
      && (pos.Some? ==> pos.value < |entries|)
      && (valid ==>
           && cur < |entries| && Live(entries, sequence, cur)
           && (direction.Forward? ==> pos == Some(cur))
           && (direction.Reverse? ==>
                && JustBefore(entries, sequence, Index(pos), cur)
                && savedKey == Some(entries[cur].ikey.user) && savedValue == entries[cur].value))
    }

    constructor (entries: seq<Entry>, sequence: Sequence)
      requires Sorted(entries)
      ensures Valid() && Abs() == Invalid && this.entries == entries && this.sequence == sequence
    {
      this.entries, this.sequence := entries, sequence;
      pos, direction, valid, savedKey, savedValue, cur := None, Forward, false, None, [], 0;
    }

    /** Whenever the cursor is valid, the key and value are those it points at. */
    method KeyValue() returns (k: UserKey, v: Bytes)
      requires Valid() && valid
      ensures Abs().p < |TheView()|
      ensures k == TheView()[Abs().p].ikey.user && v == TheView()[Abs().p].value
    {
      ViewAt(entries, sequence, cur, |entries|);
      if direction.Forward? {
        k, v := entries[pos.value].ikey.user, entries[pos.value].value;
      } else {
        k, v := savedKey.value, savedValue;
      }
    }

    method InnerNext()
      requires pos.Some? && pos.value < |entries|
      modifies this`pos
      ensures pos == if old(pos.value) + 1 < |entries| then Some(old(pos.value) + 1) else None
    {
      pos := if pos.value + 1 < |entries| then Some(pos.value + 1) else None;
    }

    method InnerPrev()
      requires pos.Some?
      modifies this`pos
      ensures pos == if old(pos.value) > 0 then Some(old(pos.value) - 1) else None
    {
      pos := if pos.value > 0 then Some(pos.value - 1) else None;
    }

    /** The shown entry is the first live one from `from` on, if there is one. */
    ghost predicate FoundFrom(from: nat)
      reads this
    {
      && Valid()
      && from <= |entries|
      && (valid ==> from <= cur && NoneLive(entries, sequence, from, cur))
      && (!valid ==> NoneLive(entries, sequence, from, |entries|))
    }

    /** The shown entry is the last live one before `to`, if there is one. */
    ghost predicate FoundBefore(to: nat)
      reads this
    {
      && Valid()
      && to <= |entries|
      && (valid ==> cur < to && NoneLive(entries, sequence, cur + 1, to))
      && (!valid ==> NoneLive(entries, sequence, 0, to))
    }

    lemma FromCursor(from: nat)
      requires FoundFrom(from)
      ensures Abs() == CursorAt(TheView(), |View(entries, sequence, from)|)
    {
      if valid {
        ViewSame(entries, sequence, from, cur);
        ViewAt(entries, sequence, cur, |entries|);
      } else {
        ViewSame(entries, sequence, from, |entries|);
      }
    }

    lemma BeforeCursor(to: nat)
      requires FoundBefore(to)
      ensures Abs() == CursorAt(TheView(), |View(entries, sequence, to)| - 1)
    {
      if valid {
        ViewSame(entries, sequence, cur + 1, to);
        ViewAt(entries, sequence, cur, |entries|);
      } else {
        ViewSame(entries, sequence, 0, to);
      }
    }

    method FindNextUserEntry(skip0: bool, ghost from: nat)
      requires Sorted(entries) && pos.Some? && pos.value < |entries| && direction.Forward? && from <= |entries|
      requires SkipOk(entries, sequence, pos.value, skip0, savedKey, from)
      requires NoneLive(entries, sequence, from, pos.value)
      modifies this
      ensures FoundFrom(from)
    {
      var skipping := skip0;
      while pos.Some?
        invariant direction.Forward? && (pos.Some? ==> pos.value < |entries|)
        invariant pos.Some? ==> SkipOk(entries, sequence, pos.value, skipping, savedKey, from)
        invariant NoneLive(entries, sequence, from, if pos.Some? then pos.value else |entries|)
        decreases |entries| - (if pos.Some? then pos.value else |entries|)
      {
        var e := entries[pos.value];
        if e.ikey.seqno <= sequence && e.ikey.kind.Value? && !(skipping && e.ikey.user <= savedKey.value) {
          AcceptedIsLive(entries, sequence, pos.value, skipping, savedKey, from);
          cur := pos.value;
          valid := true;
          savedKey := None;
          return;
        }
        SkipStep(entries, sequence, pos.value, skipping, savedKey, from);
        if e.ikey.seqno <= sequence && e.ikey.kind.Deletion? {
          savedKey := Some(e.ikey.user);
          skipping := true;
        }
        InnerNext();
      }
      savedKey := None;
      valid := false;
    }

    method FindPrevUserEntry(ghost to: nat)
      requires Sorted(entries) && direction.Reverse? && to <= |entries|
      requires ScanOk(entries, sequence, Index(pos), to, None) || (to == 0 && pos.None?)
      modifies this
      ensures FoundBefore(to)
    {
      var valueType := Deletion;
      ghost var c: Option<nat> := None;
      while pos.Some?
        invariant direction.Reverse?
        invariant ScanOk(entries, sequence, Index(pos), to, c) || (to == 0 && pos.None? && c.None?)
        invariant valueType.Value? <==> c.Some?
        invariant c.Some? ==> savedKey == Some(entries[c.value].ikey.user) && savedValue == entries[c.value].value
        decreases Index(pos)
      {
        var e := entries[pos.value];
        if e.ikey.seqno <= sequence {
          if !valueType.Deletion? && e.ikey.user < savedKey.value {
            break;
          }
          ScanStep(entries, sequence, pos.value, to, c);
          valueType := e.ikey.kind;
          if valueType.Deletion? {
            savedKey, savedValue := None, [];
          } else {
            savedKey, savedValue := Some(e.ikey.user), e.value;
          }
          c := if valueType.Value? then Some(pos.value) else None;
        } else {
          ScanStep(entries, sequence, pos.value, to, c);
        }
        InnerPrev();
      }
      if valueType.Deletion? {
        valid := false;
        savedKey, savedValue := None, [];
        direction := Forward;
      } else {
        ScanSettled(entries, sequence, Index(pos), to, c.value);
        cur := c.value;
        valid := true;
      }
    }

    method Next()
      requires Valid() && valid
      modifies this
      ensures Valid() && Abs() == CursorAt(TheView(), old(Abs().p) + 1)
    {
      hide Live, Sorted, SkipOk, View;
      ghost var c := cur;
      SuccessorRank(entries, sequence, c);
      if direction.Reverse? {
        direction := Forward;
        if pos.None? {
          pos := Some(0);
        } else {
          InnerNext();
        }
      } else {
        savedKey := Some(entries[pos.value].ikey.user);
      }
      NextSkips(entries, sequence, pos.value, c);
      FindNextUserEntry(true, c + 1);
      FromCursor(c + 1);
    }

    method Prev()
      requires Valid() && valid
      modifies this
      ensures Valid() && Abs() == CursorAt(TheView(), old(Abs().p) - 1)
    {
      hide Live, View;
      ghost var c := cur;
      if direction.Forward? {
        savedKey := Some(entries[pos.value].ikey.user);
        while true
          invariant pos.Some? && pos.value <= c && direction.Forward?
          invariant forall j :: pos.value <= j <= c ==> entries[j].ikey.user == entries[c].ikey.user
          invariant savedKey == Some(entries[c].ikey.user)
          decreases Index(pos)
        {
          InnerPrev();
          if pos.None? {
            valid := false;
            savedKey, savedValue := None, [];
            SameKeyNotLive(entries, sequence, -1, c);
            BeforeCursor(c);
            return;
          }
          if entries[pos.value].ikey.user < savedKey.value {
            break;
          }
          assert Less(entries[pos.value].ikey, entries[c].ikey);
        }
        direction := Reverse;
      }
      SameKeyNotLive(entries, sequence, Index(pos), c);
      FindPrevUserEntry(c);
      BeforeCursor(c);
    }

    method Seek(target: UserKey)
      requires Valid()
      modifies this
      ensures Valid() && Abs() == CursorAt(TheView(), CountBelow(TheView(), target))
    {
      direction := Forward;
      savedKey, savedValue := None, [];
      var i := InnerSeek(LookupKey(target, sequence));
      SeekSkipsBelow(entries, sequence, target, i);
      if pos.Some? {
        forall k, j | 0 <= k < i <= j < |entries| && Seen(entries, sequence, k)
          ensures entries[k].ikey.user != entries[j].ikey.user
        {
          assert Less(entries[k].ikey, entries[j].ikey);
          assert !Less(entries[j].ikey, LookupKey(target, sequence));
        }
        FindNextUserEntry(false, i);
      } else {
        valid := false;
      }
      FromCursor(i);
    }

    /** The internal iterator's Seek: the first entry at or after `target`. */
    method InnerSeek(target: IKey) returns (i: nat)
      requires Sorted(entries)
      modifies this`pos
      ensures IsSeekPos(entries, target, i) && pos == if i < |entries| then Some(i) else None
    {
      i := 0;
      while i < |entries| && Less(entries[i].ikey, target)
        invariant i <= |entries| && forall j :: 0 <= j < i ==> Less(entries[j].ikey, target)
      {
        i := i + 1;
      }
      forall j | i <= j < |entries| ensures !Less(entries[j].ikey, target) {
        if i < j { NotLessUpward(entries[i].ikey, entries[j].ikey, target); }
      }
      pos := if i < |entries| then Some(i) else None;
    }

    method SeekToFirst()
      requires Valid()
      modifies this
      ensures Valid() && Abs() == CursorAt(TheView(), 0)
    {
      direction := Forward;
      savedValue := [];
      pos := if |entries| > 0 then Some(0) else None;
      if pos.Some? {
        FindNextUserEntry(false, 0);
      } else {
        valid := false;
      }
      FromCursor(0);
    }

    method SeekToLast()
      requires Valid()
      modifies this
      ensures Valid() && Abs() == CursorAt(TheView(), |TheView()| - 1)
    {
      direction := Reverse;
      savedValue := [];
      pos := if |entries| > 0 then Some(|entries| - 1) else None;
      FindPrevUserEntry(|entries|);
      BeforeCursor(|entries|);
    }
  }

  /** Before the shown entry, skipping its key leaves the live entries after it. */
  lemma NextSkips(es: seq<Entry>, s: Sequence, i: nat, c: nat)
    requires Sorted(es) && i <= c < |es| && Live(es, s, c)
    requires i == c || JustBefore(es, s, i - 1, c)
    ensures SkipOk(es, s, i, true, Some(es[c].ikey.user), c + 1)
  {
    forall j | c < j < |es| ensures es[c].ikey.user <= es[j].ikey.user {
      SortedUsers(es, c, j);
    }
    forall j | c < j < |es| && Live(es, s, j) ensures es[c].ikey.user < es[j].ikey.user {
      LiveOrder(es, s, c, j);
    }
    forall k, j | 0 <= k < i <= j < |es| && Seen(es, s, k) && es[k].ikey.user == es[j].ikey.user
      ensures es[j].ikey.user <= es[c].ikey.user
    {
      SortedUsers(es, k, c);
    }
  }

  /** Between the entries of smaller keys and the shown entry nothing is live. */
  lemma SameKeyNotLive(es: seq<Entry>, s: Sequence, i: int, c: nat)
    requires c < |es| && Live(es, s, c) && -1 <= i <= c
    requires forall j :: i < j < c ==> es[j].ikey.user == es[c].ikey.user || !Seen(es, s, j)
    ensures NoneLive(es, s, i + 1, c)
  {
  }
}

/** What a compaction may drop. */
module DropRules {
  // The rules of DoCompactionWork (db/db_impl.cc lines 929-963), and exactly when readers do not notice.

  import opened Basics
  import opened DbFormat

  /** Rule (A): an input entry is hidden when a newer one for its key is itself visible to the oldest snapshot. */
  ghost predicate Hidden(input: set<Entry>, oldest: Sequence, e: Entry) {
    exists n :: n in input && n.ikey.user == e.ikey.user && e.ikey.seqno < n.ikey.seqno <= oldest
  }

  /** A tombstone visible to every snapshot, at a key the caller takes to be in no deeper level. */
  ghost predicate Obsolete(oldest: Sequence, base: UserKey -> bool, e: Entry) {
    e.ikey.kind.Deletion? && e.ikey.seqno <= oldest && base(e.ikey.user)
  }

  ghost function Kept(input: set<Entry>, oldest: Sequence, base: UserKey -> bool): set<Entry> {
    set e | e in input && !Hidden(input, oldest, e) && !Obsolete(oldest, base, e)
  }

  /** A tombstone that is dropped although it is what readers of its key see,
      and although the entries left alone still hold a value for the key. */
  ghost predicate Exposed(input: set<Entry>, rest: set<Entry>, oldest: Sequence, base: UserKey -> bool, t: Entry) {
    && t in input
    && Obsolete(oldest, base, t)
    && IsNewest(input + rest, t.ikey.user, oldest, t)
    && ReadAt(rest, t.ikey.user, oldest).Some?
  }

  ghost predicate ReadsPreserved(before: set<Entry>, after: set<Entry>, oldest: Sequence) {
    forall k, s: Sequence :: s >= oldest ==> ReadAt(after, k, s) == ReadAt(before, k, s)
  }

  lemma NoneVisible(es: set<Entry>, k: UserKey, s: Sequence)
    requires forall e :: e in es ==> !Visible(e, k, s)
    ensures Newest(es, k, s) == None
  {
  }

  /** If what a reader saw is kept, it sees the same. */
  lemma KeptNewest(input: set<Entry>, rest: set<Entry>, kept: set<Entry>, k: UserKey, s: Sequence)
    requires Unique(input + rest) && kept <= input
    requires Newest(input + rest, k, s).Some? ==> Newest(input + rest, k, s).value in kept + rest
    ensures ReadAt(kept + rest, k, s) == ReadAt(input + rest, k, s)
  {
    var n := Newest(input + rest, k, s);
    if n.Some? {
      assert IsNewest(kept + rest, k, s, n.value);
      NewestIs(kept + rest, k, s, n.value);
    } else {
      NoneVisible(kept + rest, k, s);
    }
  }

  /** Below a tombstone visible to the oldest snapshot nothing of the input survives. */
  lemma NothingKeptBelow(input: set<Entry>, oldest: Sequence, base: UserKey -> bool, t: Entry, e: Entry)
    requires Unique(input) && t in input && Obsolete(oldest, base, t)
    requires e in Kept(input, oldest, base) && e.ikey.user == t.ikey.user
    ensures e.ikey.seqno > t.ikey.seqno
  {
  }

  /** When the dropped newest entry is a tombstone, readers fall through to what is left of the key. */
  lemma DroppedTombstone(input: set<Entry>, rest: set<Entry>, oldest: Sequence, base: UserKey -> bool,
                         t: Entry, s: Sequence)
    requires Unique(input + rest) && t in input && Obsolete(oldest, base, t) && s >= oldest
    requires IsNewest(input + rest, t.ikey.user, s, t)
    ensures ReadAt(input + rest, t.ikey.user, s) == None
    ensures ReadAt(Kept(input, oldest, base) + rest, t.ikey.user, s) == ReadAt(rest, t.ikey.user, oldest)
    ensures IsNewest(input + rest, t.ikey.user, oldest, t)
  {
    var k, kept := t.ikey.user, Kept(input, oldest, base);
    NewestIs(input + rest, k, s, t);
    forall e | e in kept + rest && Visible(e, k, s) ensures e in rest && Visible(e, k, oldest) {
      assert e.ikey.seqno <= t.ikey.seqno;
      if e in kept { NothingKeptBelow(input, oldest, base, t, e); }
    }
    var r := Newest(rest, k, oldest);
    if r.Some? {
      assert IsNewest(kept + rest, k, s, r.value);
      NewestIs(kept + rest, k, s, r.value);
    } else {
      NoneVisible(kept + rest, k, s);
    }
  }

  lemma ReadUnchanged(input: set<Entry>, rest: set<Entry>, oldest: Sequence, base: UserKey -> bool,
                      k: UserKey, s: Sequence)
    requires Unique(input + rest) && s >= oldest
    requires !exists t :: Exposed(input, rest, oldest, base, t)
    ensures ReadAt(Kept(input, oldest, base) + rest, k, s) == ReadAt(input + rest, k, s)
  {
    var kept := Kept(input, oldest, base);
    var n := Newest(input + rest, k, s);
    if n.Some? && n.value !in kept + rest {
      var t := n.value;
      assert t in input;
      assert !Hidden(input, oldest, t);
      DroppedTombstone(input, rest, oldest, base, t, s);
      assert !Exposed(input, rest, oldest, base, t);
    } else {
      KeptNewest(input, rest, kept, k, s);
    }
  }

  /** Dropping by these rules changes no read at a snapshot at or after the oldest one
      exactly when it exposes no tombstone. */
  lemma ReadsPreservedIff(input: set<Entry>, rest: set<Entry>, oldest: Sequence, base: UserKey -> bool)
    requires Unique(input + rest)
    ensures ReadsPreserved(input + rest, Kept(input, oldest, base) + rest, oldest)
      <==> !exists t :: Exposed(input, rest, oldest, base, t)
  {
    if t :| Exposed(input, rest, oldest, base, t) {
      DroppedTombstone(input, rest, oldest, base, t, oldest);
      assert ReadAt(Kept(input, oldest, base) + rest, t.ikey.user, oldest) != ReadAt(input + rest, t.ikey.user, oldest);
    } else {
      forall k, s: Sequence | s >= oldest
        ensures ReadAt(Kept(input, oldest, base) + rest, k, s) == ReadAt(input + rest, k, s)
      {
        ReadUnchanged(input, rest, oldest, base, k, s);
      }
    }
  }
}

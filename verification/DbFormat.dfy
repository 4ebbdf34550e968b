/** Internal keys and the meaning of a set of entries. */
module DbFormat {
  // From db/dbformat.h and db/dbformat.cc. Every layer of the store holds entries (user key, sequence number, kind,
  // value). What a reader must see is fixed by the set of entries alone: at snapshot `s` the value of a key is that of
  // its newest entry with a sequence number at most `s`, and a tombstone reads as absent. `ReadAt` states this; the
  // rest of the project measures the layers, and every rearrangement of them, against it.

  import opened Basics

  /** A user key stands for its rank under the user comparator: keys are byte strings, of which
      there are countably many, and every countable total order embeds in the reals. */
  type UserKey = real

  const NUM_LEVELS := 7

  const MAX_SEQUENCE: nat := 0x100_0000_0000_0000 - 1

  type Sequence = s: nat | s <= MAX_SEQUENCE

  datatype Kind = Deletion | Value

  const KIND_FOR_SEEK := Value

  datatype IKey = IKey(user: UserKey, seqno: Sequence, kind: Kind)

  datatype Entry = Entry(ikey: IKey, value: Bytes)

  /** Sequence number and kind packed into 64 bits. */
  function Pack(k: IKey): nat {
    k.seqno * 256 + (if k.kind.Value? then 1 else 0)
  }

  /** InternalKeyComparator: increasing user key, then decreasing sequence number and kind. */
  predicate Less(a: IKey, b: IKey) {
    a.user < b.user || (a.user == b.user && Pack(a) > Pack(b))
  }

  predicate LessEq(a: IKey, b: IKey) {
    !Less(b, a)
  }

  /** Strictly increasing in internal-key order. */
  ghost predicate Sorted(es: seq<Entry>) {
    forall i, j :: 0 <= i < j < |es| ==> Less(es[i].ikey, es[j].ikey)
  }

  lemma LessTotal(a: IKey, b: IKey)
    ensures Less(a, b) || a == b || Less(b, a)
    ensures !(Less(a, b) && Less(b, a))
  {
  }

  lemma LessTransitive(a: IKey, b: IKey, c: IKey)
    requires LessEq(a, b) && LessEq(b, c)
    ensures LessEq(a, c)
    ensures Less(a, b) || Less(b, c) ==> Less(a, c)
  {
  }

  lemma NotLessUpward(a: IKey, b: IKey, c: IKey)
    requires LessEq(a, b) && !Less(a, c)
    ensures !Less(b, c)
  {
  }

  ghost function SetOf(es: seq<Entry>): set<Entry> {
    set e | e in es
  }

  // ---------- the meaning of a set of entries ----------

  ghost predicate Visible(e: Entry, k: UserKey, s: Sequence) {
    e.ikey.user == k && e.ikey.seqno <= s
  }

  /** No sequence number is given to two entries of one user key. */
  ghost predicate Unique(es: set<Entry>) {
    forall a, b :: a in es && b in es && a.ikey.user == b.ikey.user && a.ikey.seqno == b.ikey.seqno ==> a == b
  }

  ghost predicate IsNewest(es: set<Entry>, k: UserKey, s: Sequence, e: Entry) {
    && e in es && Visible(e, k, s)
    && forall f :: f in es && Visible(f, k, s) ==> f.ikey.seqno <= e.ikey.seqno
  }

  lemma {:induction false} NewestExists(es: set<Entry>, k: UserKey, s: Sequence, e: Entry) returns (n: Entry)
    requires e in es && Visible(e, k, s)
    ensures IsNewest(es, k, s, n)
    decreases es
  {
    var rest := es - {e};
    if f :| f in rest && Visible(f, k, s) {
      n := NewestExists(rest, k, s, f);
      if n.ikey.seqno < e.ikey.seqno { n := e; }
    } else {
      n := e;
    }
  }

  /** The newest entry of `k` that snapshot `s` may see. */
  ghost function Newest(es: set<Entry>, k: UserKey, s: Sequence): (r: Option<Entry>)
    ensures r.Some? ==> IsNewest(es, k, s, r.value)
    ensures r.None? ==> forall e :: e in es ==> !Visible(e, k, s)
  {
    if exists e :: IsNewest(es, k, s, e) then
      var e :| IsNewest(es, k, s, e); Some(e)
    else
      assert forall e :: e in es ==> !Visible(e, k, s) by {
        forall e | e in es ensures !Visible(e, k, s) {
          if Visible(e, k, s) { var n := NewestExists(es, k, s, e); }
        }
      }
      None
  }

  lemma NewestIs(es: set<Entry>, k: UserKey, s: Sequence, e: Entry)
    requires Unique(es) && IsNewest(es, k, s, e)
    ensures Newest(es, k, s) == Some(e)
  {
    assert Visible(e, k, s);
    var n := Newest(es, k, s).value;
    assert IsNewest(es, k, s, n);
    assert n.ikey.seqno == e.ikey.seqno;
  }

  /** What an entry means to a reader. */
  function Meaning(r: Option<Entry>): Option<Bytes> {
    match r
    case None => None
    case Some(e) => if e.ikey.kind.Deletion? then None else Some(e.value)
  }

  /** The value of `k` at snapshot `s`: that of its newest visible entry, a tombstone being absence. */
  ghost function ReadAt(es: set<Entry>, k: UserKey, s: Sequence): Option<Bytes> {
    Meaning(Newest(es, k, s))
  }

  // ---------- seeking in a sorted run ----------

  /** The lookup key for user key `k` at snapshot `s`: the first position a visible entry can have. */
  function LookupKey(k: UserKey, s: Sequence): IKey {
    IKey(k, s, KIND_FOR_SEEK)
  }

  /** Position of the first entry at or after `target` (Iterator::Seek). */
  ghost predicate IsSeekPos(es: seq<Entry>, target: IKey, i: nat) {
    && i <= |es|
    && (forall j :: 0 <= j < i ==> Less(es[j].ikey, target))
    && (forall j :: i <= j < |es| ==> !Less(es[j].ikey, target))
  }

  /** The entry a seek to the lookup key lands on, if it has the wanted user key, is the newest visible one;
      otherwise the run holds no visible entry for it. */
  lemma SeekFindsNewest(es: seq<Entry>, k: UserKey, s: Sequence, i: nat)
    requires Sorted(es) && IsSeekPos(es, LookupKey(k, s), i)
    ensures i < |es| && es[i].ikey.user == k ==> IsNewest(SetOf(es), k, s, es[i])
    ensures !(i < |es| && es[i].ikey.user == k) ==> forall e :: e in es ==> !Visible(e, k, s)
  {
    forall j | 0 <= j < |es| && Visible(es[j], k, s)
      ensures i <= j && i < |es| && es[i].ikey.user == k && es[j].ikey.seqno <= es[i].ikey.seqno
    {
      assert !Less(es[j].ikey, LookupKey(k, s));
      assert i <= j;
      if i < j { assert Less(es[i].ikey, es[j].ikey); }
      assert !Less(es[i].ikey, LookupKey(k, s));
    }
  }
}

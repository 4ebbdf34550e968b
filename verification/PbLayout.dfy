/** The structs behind nanopb's descriptors. */
module PbLayout {
  // What the macros of generated code say about a struct, and where the iterator then finds its members
  // (pb.h lines 385-430 and 538-555, pb_common.c lines 11-97).

  import opened Basics
  import opened Coding
  import opened PbFields

  /** A field as it lies in its struct: where its data is, and its presence flag, count or union tag. */
  datatype Member = Member(
    tag: U32, rule: Rule, kind: Kind, at: nat, sizeAt: nat, dataSize: U32, arraySize: U32, sameUnion: bool,
    default: Option<Value>)

  function Size(m: Member): nat {
    m.dataSize * if m.rule == Repeated then m.arraySize else 1
  }

  /** Members lie one behind the other; those of a union share their place and their tag. */
  predicate LaidOut(ms: seq<Member>) {
    && (forall i :: 0 <= i < |ms| ==> ms[i].at < SAME_UNION)
    && (forall i :: 0 <= i < |ms| && ms[i].sameUnion ==> FollowsInUnion(ms, i))
    && forall i :: 0 < i < |ms| && !ms[i].sameUnion ==> ms[i - 1].at + Size(ms[i - 1]) <= ms[i].at
  }

  predicate FollowsInUnion(ms: seq<Member>, i: nat)
    requires i < |ms|
  {
    && i > 0 && ms[i].rule == Oneof && ms[i - 1].rule == Oneof
    && ms[i].at == ms[i - 1].at && ms[i].sizeAt == ms[i - 1].sizeAt
  }

  /** The descriptor of a member: distances from the end of the member before it, and from its own start. */
  function Describe(ms: seq<Member>, i: nat): Field
    requires LaidOut(ms) && i < |ms|
  {
    var m := ms[i];
    var offset: U32 :=
      if i == 0 then m.at
      else if m.sameUnion then SAME_UNION
      else m.at - ms[i - 1].at - Size(ms[i - 1]);
    var sizeOffset := if m.rule == Required || m.rule == Singular then 0 else m.sizeAt - m.at;
    Field(m.tag, m.rule, m.kind, offset, sizeOffset, m.dataSize, m.arraySize, m.default)
  }

  function Descriptor(ms: seq<Member>): seq<Field>
    requires LaidOut(ms)
  {
    seq(|ms|, i requires 0 <= i < |ms| => Describe(ms, i))
  }

  /** Walking the descriptor of a struct, the iterator stands at every member's own data, and at its own flag, count or
      union tag. */
  lemma {:induction false} WalkFindsMembers(ms: seq<Member>, i: nat)
    requires LaidOut(ms) && i < |ms|
    ensures Continues(Descriptor(ms), i) <==> ms[i].sameUnion
    ensures DataAt(Descriptor(ms), i) == ms[i].at
    ensures ms[i].rule != Required && ms[i].rule != Singular ==> SizeAt(Descriptor(ms), i) == ms[i].sizeAt
  {
    if i > 0 {
      WalkFindsMembers(ms, i - 1);
      assert Extent(Descriptor(ms)[i - 1]) == Size(ms[i - 1]);
    }
  }
}

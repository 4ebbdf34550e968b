/** The output stream of nanopb. */
module PbStream {
  // A stream without a sink only counts; a nested message is first counted that way and then written through a stream
  // limited to the count (pb_encode.c lines 68-119).

  import opened Basics
  import opened PbEncode

  /** What an output stream has done so far: `written` and `rest` are its buffer before and after the next byte. */
  datatype Sink = Sink(sizing: bool, count: nat, limit: nat, written: Bytes, rest: Bytes)

  predicate ValidSink(s: Sink) {
    s.sizing || (s.count <= s.limit && s.limit - s.count <= |s.rest|)
  }

  predicate Fits(s: Sink, bytes: Bytes) {
    s.sizing || s.count + |bytes| <= s.limit
  }

  function After(s: Sink, bytes: Bytes): (r: Sink)
    requires ValidSink(s) && Fits(s, bytes)
    ensures ValidSink(r)
  {
    if s.sizing then s.(count := s.count + |bytes|)
    else s.(count := s.count + |bytes|, written := s.written + bytes, rest := s.rest[|bytes|..])
  }

  /** Writing what the encoder produces, if it produces anything and it fits. */
  function Put(s: Sink, bytes: Option<Bytes>): (r: Option<Sink>)
    requires ValidSink(s)
    ensures r.Some? ==> ValidSink(r.value)
  {
    if bytes.Some? && Fits(s, bytes.value) then Some(After(s, bytes.value)) else None
  }

  function PutNext(s: Option<Sink>, bytes: Option<Bytes>): Option<Sink>
    requires s.Some? ==> ValidSink(s.value)
  {
    if s.Some? then Put(s.value, bytes) else None
  }

  /** Two writes succeed, and do the same, exactly when one write of both does. */
  lemma PutCat(s: Sink, a: Option<Bytes>, b: Option<Bytes>)
    requires ValidSink(s)
    ensures Put(s, Cat(a, b)) == PutNext(Put(s, a), b)
  {
    if a.Some? && b.Some? && Fits(s, a.value + b.value) && !s.sizing {
      assert s.written + (a.value + b.value) == s.written + a.value + b.value;
      assert s.rest[|a.value + b.value|..] == s.rest[|a.value|..][|b.value|..];
    }
  }

  lemma PutNothing(s: Sink)
    requires ValidSink(s)
    ensures Put(s, Some([])) == Some(s)
  {
    if !s.sizing {
      assert s.written + [] == s.written && s.rest[0..] == s.rest;
    }
  }

  class OStream {
    const sizing: bool
    const buf: array<Byte>
    var state: nat
    var maxSize: nat
    var bytesWritten: nat

    ghost function Now(): Sink
      reads this, buf
    {
      if state <= buf.Length then Sink(sizing, bytesWritten, maxSize, buf[..state], buf[state..])
      else Sink(sizing, bytesWritten, maxSize, [], [])
    }

    ghost predicate Valid()
      reads this, buf
    {
      state <= buf.Length && ValidSink(Now())
    }

    /** A stream that only counts. */
    constructor Sizing()
      ensures fresh(buf) && sizing && Valid() && Now() == Sink(true, 0, 0, [], [])
    {
      sizing := true;
      buf := new Byte[0];
      state, maxSize, bytesWritten := 0, 0, 0;
    }

    constructor FromBuffer(buf: array<Byte>, bufsize: nat)
      requires bufsize <= buf.Length
      ensures this.buf == buf && Valid() && Now() == Sink(false, 0, bufsize, [], buf[..])
    {
      sizing := false;
      this.buf := buf;
      state, maxSize, bytesWritten := 0, bufsize, 0;
    }

    /** A stream that goes on where `parent` stands, for at most `size` bytes. */
    constructor Within(parent: OStream, size: nat)
      requires parent.Valid() && !parent.sizing && parent.bytesWritten + size <= parent.maxSize
      ensures buf == parent.buf && Valid()
      ensures Now() == Sink(false, 0, size, parent.Now().written, parent.Now().rest)
    {
      sizing := false;
      buf := parent.buf;
      state, maxSize, bytesWritten := parent.state, size, 0;
    }

    method Copy(bytes: Bytes)
      requires state + |bytes| <= buf.Length
      modifies this`state, buf
      ensures state == old(state) + |bytes|
      ensures buf[..state] == old(buf[..state]) + bytes
      ensures buf[state..] == old(buf[state..])[|bytes|..]
    {
      var dest := state;
      state := dest + |bytes|;
      var i := 0;
      while i < |bytes|
        invariant i <= |bytes|
        invariant buf[..dest + i] == old(buf[..state]) + bytes[..i]
        invariant buf[dest + i..] == old(buf[state..])[i..]
        modifies buf
      {
        buf[dest + i] := bytes[i];
        assert buf[..dest + i + 1] == buf[..dest + i] + [bytes[i]];
        assert buf[dest + i + 1..] == buf[dest + i..][1..];
        i := i + 1;
      }
    }

    method Write(bytes: Bytes) returns (ok: bool)
      requires Valid()
      modifies this, buf
      ensures ok == Put(old(Now()), Some(bytes)).Some?
      ensures ok ==> Valid() && Some(Now()) == Put(old(Now()), Some(bytes))
    {
      if !sizing {
        if bytesWritten + |bytes| > maxSize { return false; }
        Copy(bytes);
      }
      bytesWritten := bytesWritten + |bytes|;
      ok := true;
    }

    /** Counts bytes that a stream without a sink does not look at. */
    method Count(size: nat, ghost bytes: Bytes) returns (ok: bool)
      requires Valid() && sizing && size == |bytes|
      modifies this
      ensures ok && Valid() && Some(Now()) == Put(old(Now()), Some(bytes))
    {
      bytesWritten := bytesWritten + size;
      ok := true;
    }
  }
}

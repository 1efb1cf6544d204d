/** The look-ahead stream of 7zStream.c: whatever the mix of calls, its bytes are those of the stream below. */
module LookToRead {
  import opened Words

  const BUF_SIZE := 0x4000

  /** What is left of a stream from a position on, which may be past its end. */
  function From(data: seq<byte>, pos: nat): seq<byte> {
    if pos <= |data| then data[pos..] else []
  }

  /** A stream that may give less than it is asked for, as `grants` says, but gives something until its end. */
  class RealStream {
    const data: seq<byte>
    const grants: (nat, nat) -> nat
    var pos: nat
    var calls: nat

    constructor (data: seq<byte>, grants: (nat, nat) -> nat)
      ensures this.data == data && pos == 0
    {
      this.data, this.grants := data, grants;
      pos, calls := 0, 0;
    }

    method Read(want: nat) returns (got: seq<byte>)
      modifies this
      ensures pos == old(pos) + |got| && |got| <= want && got <= From(data, old(pos))
      ensures got == [] <==> want == 0 || old(pos) >= |data|
    {
      var left := if pos <= |data| then |data| - pos else 0;
      var most := if want < left then want else left;
      var n := if most == 0 then 0 else 1 + grants(calls, most) % most;
      got := if n == 0 then [] else data[pos..pos + n];
      pos, calls := pos + n, calls + 1;
    }

    method Seek(to: nat)
      modifies `pos
      ensures pos == to
    {
      pos := to;
    }
  }

  class Look {
    const realStream: RealStream
    const buf: array<byte>
    /** Which of the two ways of looking CLookToRead has been given. */
    const lookahead: bool
    var pos: nat
    var size: nat

    /** The buffer holds the bytes just before the position of the stream below. */
    ghost predicate Valid()
      reads this, realStream, buf
    {
      && pos <= size <= buf.Length == BUF_SIZE && size - pos <= realStream.pos
      && buf[pos..size] <= From(realStream.data, realStream.pos - (size - pos))
    }

    /** Where the reader of this stream is. */
    ghost function Logical(): nat
      requires Valid()
      reads this, realStream, buf
    {
      realStream.pos - (size - pos)
    }

    /** What it has still to read. */
    ghost function Rest(): seq<byte>
      requires Valid()
      reads this, realStream, buf
    {
      From(realStream.data, Logical())
    }

    /** LookToRead_CreateVTable and LookToRead_Init. */
    constructor (realStream: RealStream, lookahead: bool)
      ensures Valid() && this.realStream == realStream && this.lookahead == lookahead && fresh(buf)
      ensures Logical() == realStream.pos
    {
      this.realStream, this.lookahead := realStream, lookahead;
      buf := new byte[BUF_SIZE];
      pos, size := 0, 0;
    }

    method Refill(want: nat)
      requires Valid() && pos == size && want <= BUF_SIZE
      modifies this, realStream, buf
      ensures Valid() && Logical() == old(Logical()) && size - pos <= want
      ensures pos == size <==> want == 0 || Rest() == []
    {
      pos := 0;
      var got := realStream.Read(want);
      size := |got|;
      forall i | 0 <= i < |got| {
        buf[i] := got[i];
      }
      assert buf[0..size] == got;
    }

    /** LookToRead_Look_Lookahead: fills the buffer as far as it can. */
    method LookLookahead(want: nat) returns (view: seq<byte>)
      requires Valid()
      modifies this, realStream, buf
      ensures Valid() && Logical() == old(Logical()) && |view| <= want && |view| <= size - pos
      ensures view <= Rest()
      ensures view == [] <==> want == 0 || Rest() == []
    {
      var size2 := size - pos;
      if size2 == 0 && want > 0 {
        Refill(BUF_SIZE);
        size2 := size - pos;
      }
      var n := if size2 < want then size2 else want;
      view := buf[pos..pos + n];
      assert view == buf[pos..size][..n];
    }

    /** LookToRead_Look_Exact: reads no more than it is asked for. */
    method LookExact(want: nat) returns (view: seq<byte>)
      requires Valid()
      modifies this, realStream, buf
      ensures Valid() && Logical() == old(Logical()) && |view| <= want && |view| <= size - pos
      ensures view <= Rest()
      ensures view == [] <==> want == 0 || Rest() == []
      ensures old(pos) == old(size) ==> size - pos <= want
    {
      var size2 := size - pos;
      if size2 == 0 && want > 0 {
        Refill(if want > BUF_SIZE then BUF_SIZE else want);
        size2 := size - pos;
      }
      var n := if size2 < want then size2 else want;
      view := buf[pos..pos + n];
      assert view == buf[pos..size][..n];
    }

    /** LookToRead_Skip, over what has been looked at. */
    method Skip(offset: nat)
      requires Valid() && offset <= size - pos
      modifies `pos
      ensures Valid() && Logical() == old(Logical()) + offset
    {
      assert buf[pos + offset..size] == buf[pos..size][offset..];
      pos := pos + offset;
    }

    /** LookToRead_Read. */
    method Read(want: nat) returns (got: seq<byte>)
      requires Valid()
      modifies this, realStream
      ensures Valid() && Logical() == old(Logical()) + |got| && |got| <= want
      ensures got <= old(Rest())
      ensures got == [] <==> want == 0 || old(Rest()) == []
    {
      var rem := size - pos;
      if rem == 0 {
        got := realStream.Read(want);
        return;
      }
      if rem > want {
        rem := want;
      }
      got := buf[pos..pos + rem];
      assert got == buf[pos..size][..rem];
      assert buf[pos + rem..size] == buf[pos..size][rem..];
      pos := pos + rem;
    }

    /** LookToRead_Seek, to an absolute position. */
    method Seek(to: nat)
      requires Valid()
      modifies `pos, `size, realStream`pos
      ensures Valid() && Logical() == to
    {
      pos, size := 0, 0;
      realStream.Seek(to);
    }

    /** LookInStream_Read2: reads until it has all, and fails just when the stream has not enough left. */
    method ReadAll(want: nat) returns (ok: bool, got: seq<byte>)
      requires Valid()
      modifies this, realStream
      ensures Valid() && ok == (want <= |old(Rest())|)
      ensures ok ==> Logical() == old(Logical()) + want && got == old(Rest())[..want]
      ensures !ok ==> Rest() == [] && got == old(Rest())
    {
      got := [];
      var left: nat := want;
      ghost var first, rest := Logical(), Rest();
      while left != 0
        invariant Valid() && left + |got| == want && Logical() == first + |got|
        invariant got <= rest && Rest() == rest[|got|..]
        decreases left
      {
        var processed := Read(left);
        if processed == [] {
          return false, got;
        }
        assert processed == rest[|got|..][..|processed|];
        got, left := got + processed, left - |processed|;
      }
      ok := true;
    }

    /** LookInStream_LookRead: looks in whichever way, copies and skips. */
    method LookRead(want: nat) returns (got: seq<byte>)
      requires Valid()
      modifies this, realStream, buf
      ensures Valid() && Logical() == old(Logical()) + |got| && |got| <= want
      ensures got <= old(Rest())
      ensures got == [] <==> want == 0 || old(Rest()) == []
    {
      got := [];
      if want == 0 {
        return;
      }
      if lookahead {
        got := LookLookahead(want);
      } else {
        got := LookExact(want);
      }
      Skip(|got|);
    }
  }
}

/** The circular dictionary: where in it the last bytes of the output history are. */
module LzmaWindow {
  import opened Words
  import opened LzmaStream

  /** The index of the byte written k writes ago. */
  function Back(size: nat, dicPos: nat, k: nat): nat
    requires k <= size && dicPos <= size
  {
    if k <= dicPos then dicPos - k else dicPos - k + size
  }

  /** The dictionary holds as much of the history as fits, ending just before dicPos. */
  ghost predicate Window(dic: seq<byte>, dicPos: nat, hist: seq<byte>)
    requires dicPos <= |dic|
  {
    forall k: nat {:trigger Back(|dic|, dicPos, k)} | 1 <= k <= |hist| && k <= |dic| ::
      dic[Back(|dic|, dicPos, k)] == hist[|hist| - k]
  }

  lemma WindowEmpty(dic: seq<byte>, dicPos: nat)
    requires dicPos <= |dic|
    ensures Window(dic, dicPos, [])
  {
  }

  lemma WindowAppend(dic: seq<byte>, dicPos: nat, hist: seq<byte>, b: byte)
    requires dicPos < |dic| && Window(dic, dicPos, hist)
    ensures Window(dic[dicPos := b], dicPos + 1, hist + [b])
  {
    var d, h := dic[dicPos := b], hist + [b];
    forall k: nat {:trigger Back(|d|, dicPos + 1, k)} | 1 <= k <= |h| && k <= |d|
      ensures d[Back(|d|, dicPos + 1, k)] == h[|h| - k]
    {
      if k > 1 {
        assert Back(|d|, dicPos + 1, k) == Back(|dic|, dicPos, k - 1);
      }
    }
  }

  /** A full dictionary may start over. */
  lemma WindowWraps(dic: seq<byte>, hist: seq<byte>)
    requires Window(dic, |dic|, hist)
    ensures Window(dic, 0, hist)
  {
    forall k: nat {:trigger Back(|dic|, 0, k)} | 1 <= k <= |hist| && k <= |dic|
      ensures dic[Back(|dic|, 0, k)] == hist[|hist| - k]
    {
      assert Back(|dic|, 0, k) == Back(|dic|, |dic|, k);
    }
  }

  /** Appending the bytes of a straight piece. */
  lemma {:induction false} WindowAppendAll(dic: seq<byte>, dicPos: nat, hist: seq<byte>, s: seq<byte>)
    requires dicPos + |s| <= |dic| && Window(dic, dicPos, hist)
    ensures Window(dic[..dicPos] + s + dic[dicPos + |s|..], dicPos + |s|, hist + s)
    decreases |s|
  {
    if s == [] {
      assert dic[..dicPos] + s + dic[dicPos..] == dic && hist + s == hist;
    } else {
      var d := dic[dicPos := s[0]];
      WindowAppend(dic, dicPos, hist, s[0]);
      WindowAppendAll(d, dicPos + 1, hist + [s[0]], s[1..]);
      assert d[..dicPos + 1] + s[1..] + d[dicPos + |s|..] == dic[..dicPos] + s + dic[dicPos + |s|..];
      assert hist + [s[0]] + s[1..] == hist + s;
    }
  }

  /** A byte from within reach is found where the decoder looks for it. */
  lemma WindowByte(dic: seq<byte>, dicPos: nat, hist: seq<byte>, dist: nat)
    requires dicPos <= |dic| && Window(dic, dicPos, hist) && 1 <= dist <= |hist| && dist <= |dic|
    ensures dic[Back(|dic|, dicPos, dist)] == hist[|hist| - dist]
  {
  }

  /** Moving on along a copy without wrapping. */
  lemma BackStraight(size: nat, dicPos: nat, k: nat, j: nat)
    requires k <= size && dicPos + j <= size && Back(size, dicPos, k) + j < size
    ensures Back(size, dicPos + j, k) == Back(size, dicPos, k) + j
  {
  }
}

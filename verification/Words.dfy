/** Machine integers of the sources: bytes and 32-bit words as ranges of `int`. */
module Words {
  datatype Option<T> = None | Some(value: T)

  const TWO32: int := 0x1_0000_0000

  type byte = x: int | 0 <= x < 0x100
  type word = x: int | 0 <= x < 0x1_0000_0000

  /** A quotient and remainder are known by their equation. */
  lemma DivUnique(x: int, d: int, q: int, r: int)
    requires 0 < d && x == d * q + r && 0 <= r < d
    ensures x / d == q && x % d == r
  {
    QuotientsAgree(d, q, r, x / d, x % d);
  }

  lemma QuotientsAgree(d: int, q: int, r: int, q': int, r': int)
    requires d * q + r == d * q' + r' && 0 <= r < d && 0 <= r' < d
    ensures q == q' && r == r'
  {
    Distribute(d, q, q');
    if q > q' {
      AtLeast(d, q - q');
    } else if q < q' {
      Distribute(d, q', q);
      AtLeast(d, q' - q);
    }
  }

  lemma Distribute(d: int, q: int, q': int)
    ensures d * (q - q') == d * q - d * q'
  {
  }

  lemma AtLeast(d: int, n: int)
    requires 0 < d && 1 <= n
    ensures d * n >= d
  {
  }

  /** Adding modulo 2^32. */
  lemma WordSum(h: int, n: int)
    ensures (h % TWO32 + n) % TWO32 == (h + n) % TWO32
  {
    var q, q' := h / TWO32, (h + n) / TWO32;
    DivUnique(h % TWO32 + n, TWO32, q' - q, (h + n) % TWO32);
  }

  /** Four bytes, most significant first. */
  function BigBytes(w: word): (b: seq<byte>)
    ensures |b| == 4
  {
    [w / 0x100_0000, w / 0x1_0000 % 0x100, w / 0x100 % 0x100, w % 0x100]
  }

  lemma BigBytesSum(w: word)
    ensures var b := BigBytes(w); 0x100_0000 * b[0] as int + 0x1_0000 * b[1] as int + 0x100 * b[2] as int + b[3] as int == w
  {
    var q := w / 0x100;
    DivUnique(w, 0x1_0000, q / 0x100, 0x100 * (q % 0x100) + w % 0x100);
    DivUnique(w, 0x100_0000, q / 0x100 / 0x100, 0x1_0000 * (q / 0x100 % 0x100) + 0x100 * (q % 0x100) + w % 0x100);
  }
}

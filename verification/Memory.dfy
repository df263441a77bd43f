/** Byte strings cut to a capacity, and the two ways of copying them. */
module Memory {
  import opened Bytes

  type bytes = seq<byte>

  function Cut(text: bytes, n: nat): (r: bytes)
    ensures |r| <= n && r <= text && (|text| <= n ==> r == text)
  {
    if |text| > n then text[..n] else text
  }

  lemma CutsJoin(a: bytes, b: bytes, n: nat)
    ensures Cut(Cut(a, n) + b, n) == Cut(a + b, n)
  {
  }

  function Min(a: int, b: int): int { if a < b then a else b }

  /** memmove: the source is read before anything is written. */
  method Move(dst: array<byte>, at: nat, src: array<byte>, from: nat, n: nat)
    requires at + n <= dst.Length && from + n <= src.Length
    modifies dst
    ensures dst[..] == old(dst[..at]) + old(src[from..from + n]) + old(dst[at + n..])
  {
    forall i | 0 <= i < n {
      dst[at + i] := src[from + i];
    }
  }

  /** memcpy: the two blocks belong to different objects. */
  method Copy(dst: array<byte>, at: nat, src: array<byte>, from: nat, n: nat)
    requires dst != src && at + n <= dst.Length && from + n <= src.Length
    modifies dst
    ensures dst[..] == old(dst[..at]) + src[from..from + n] + old(dst[at + n..])
  {
    Move(dst, at, src, from, n);
  }

  method Store(dst: array<byte>, at: nat, text: bytes)
    requires at + |text| <= dst.Length
    modifies dst
    ensures dst[..] == old(dst[..at]) + text + old(dst[at + |text|..])
  {
    forall i | 0 <= i < |text| {
      dst[at + i] := text[i];
    }
  }
}

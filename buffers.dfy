/** Block copies between element buffers, as the vectors perform them with
    `memcpy`. */
module Buffers {
  /** `n` elements of `src` from `from` on are copied into `dst` from `to`
      on; the rest of `dst` keeps its content. */
  method CopyElements<T>(src: array<T>, from: nat, dst: array<T>, to: nat, n: nat)
    requires from + n <= src.Length && to + n <= dst.Length && src != dst
    modifies dst
    ensures dst[to..to + n] == src[from..from + n]
    ensures dst[..to] == old(dst[..to]) && dst[to + n..] == old(dst[to + n..])
  {
    var i := 0;
    while i != n
      invariant 0 <= i <= n
      invariant dst[to..to + i] == src[from..from + i]
      invariant dst[..to] == old(dst[..to]) && dst[to + i..] == old(dst[to + i..])
    {
      dst[to + i] := src[from + i];
      i := i + 1;
    }
  }
}

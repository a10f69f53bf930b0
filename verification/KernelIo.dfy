/** What the kernel may answer to a read or write, and how far a loop over such calls gets. */
module KernelIo {
  import opened Words

  /** Some bytes, a signal (`EINTR`), or the end: an error, or no bytes at all. */
  datatype Answer = Bytes(n: nat) | Interrupted | Refused

  /** At least one byte of what is left, and not more than that. */
  function Granted(n: nat, left: nat): (m: nat)
    requires left > 0
    ensures 1 <= m <= left
  {
    if n == 0 then 1 else if n < left then n else left
  }

  /** How many of `len` bytes are moved before the loop ends; a kernel with no more answers to give moves the rest. */
  function BytesMoved(kernel: seq<Answer>, len: nat): (m: nat)
    ensures m <= len
    ensures Refused !in kernel ==> m == len
    decreases |kernel|
  {
    if len == 0 then 0
    else if kernel == [] then len
    else match kernel[0]
      case Refused => 0
      case Interrupted => BytesMoved(kernel[1..], len)
      case Bytes(n) => Granted(n, len) + BytesMoved(kernel[1..], len - Granted(n, len))
  }

  /** The next call of the loop: the bytes it moved, `None` once it is refused, and the answers still to come. */
  method Call(kernel: seq<Answer>, left: nat) returns (m: Option<nat>, rest: seq<Answer>)
    requires left > 0
    ensures m.Some? ==> m.value <= left && BytesMoved(kernel, left) == m.value + BytesMoved(rest, left - m.value)
    ensures m.Some? ==> m.value > 0 || |rest| < |kernel|
    ensures m.None? ==> BytesMoved(kernel, left) == 0
    ensures Refused !in kernel ==> m.Some? && Refused !in rest
  {
    if kernel == [] {
      return Some(left), [];
    }
    rest := kernel[1..];
    match kernel[0] {
      case Refused => m := None;
      case Interrupted => m := Some(0);
      case Bytes(n) => m := Some(Granted(n, left));
    }
  }
}

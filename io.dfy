/**
 * The system calls of the child process as inputs. A peer's bytes are a
 * stream; how the kernel splits a stream into the results of successive
 * calls is a sequence of steps chosen by the environment. Every step is
 * legal, so a model that takes steps as inputs has no precondition on them.
 */
module Io {

  type pos = n: int | n >= 1 witness 1

  function Min(a: int, b: int): int
  {
    if a <= b then a else b
  }

  /** One `read`/`recv` call: it fails, or `n` bytes are ready to be handed over. */
  datatype ReadStep = ReadFails | Ready(n: pos)

  /** One `write` call: it fails, or the kernel takes up to `n` bytes. */
  datatype WriteStep = WriteFails | Accepts(n: nat)

  /**
   * The return value of a read asking for `count` bytes when `avail` bytes
   * of the stream are still unread: -1 on failure, 0 at end of stream,
   * otherwise between 1 and both bounds.
   */
  function ReadReturn(step: ReadStep, count: nat, avail: nat): (r: int)
    ensures step.ReadFails? <==> r == -1
    ensures step.Ready? ==> 0 <= r <= count && r <= avail
    ensures step.Ready? ==> (r == 0 <==> count == 0 || avail == 0)
  {
    match step
    case ReadFails => -1
    case Ready(n) => Min(Min(n, count), avail)
  }

  /** The return value of a write of `count` bytes: -1 on failure, else at most `count`. */
  function WriteReturn(step: WriteStep, count: nat): (r: int)
    ensures step.WriteFails? <==> r == -1
    ensures step.Accepts? ==> 0 <= r <= count
    ensures step.Accepts? && step.n >= 1 && count >= 1 ==> r >= 1
  {
    match step
    case WriteFails => -1
    case Accepts(n) => Min(n, count)
  }
}

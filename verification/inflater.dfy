/**
 * `java.util.zip.Inflater` as the decoder drives it. The DEFLATE/zlib
 * algorithm itself is not modelled: what a compressed input inflates to is a
 * function `zlib` supplied by the caller, and the class only hands that result
 * out in buffer-sized pieces, the way `inflate(byte[])` does.
 */
module Inflaters {
  import opened JavaInt
  import opened Wrappers

  /**
   * What the library does with one compressed input: it decodes to `output`
   * (and reports itself finished), it rejects the data (`DataFormatException`),
   * or it keeps returning 0 without ever reporting itself finished (the input
   * ends before the stream does, or a preset dictionary is asked for).
   */
  datatype Inflation = Inflated(output: seq<JByte>) | Corrupt | Stalls

  function Min(a: int, b: int): int
  {
    if a < b then a else b
  }

  /** `new Inflater()` followed by `setInput(data)`. */
  class Inflater {
    const input: seq<JByte>
    const outcome: Inflation
    /** How many bytes of the inflated output earlier `inflate` calls handed out. */
    var produced: nat

    ghost predicate Valid()
      reads this
    {
      outcome.Inflated? ==> produced <= |outcome.output|
    }

    constructor (zlib: seq<JByte> -> Inflation, data: seq<JByte>)
      ensures Valid()
      ensures input == data && outcome == zlib(data) && produced == 0
    {
      input := data;
      outcome := zlib(data);
      produced := 0;
    }

    /** `finished()`: the end of the compressed stream has been reached and all output handed out. */
    predicate Finished()
      reads this
      ensures Finished() ==> outcome.Inflated?
      ensures Valid() && outcome.Inflated? && !Finished() ==> produced < |outcome.output|
    {
      outcome.Inflated? && produced == |outcome.output|
    }

    /**
     * `inflate(buf)`: copies the next at most `buf.Length` output bytes to
     * the front of `buf` and returns their number; `None` stands for the
     * `DataFormatException` a corrupt stream raises. A stalled inflater
     * returns 0 and makes no progress.
     */
    method Inflate(buf: array<JByte>) returns (r: Option<nat>)
      requires Valid()
      modifies this`produced, buf
      ensures Valid()
      ensures outcome.Corrupt? ==> r == None && produced == old(produced) && unchanged(buf)
      ensures outcome.Stalls? ==> r == Some(0) && produced == old(produced) && unchanged(buf)
      ensures outcome.Inflated? ==>
                r.Some? && r.value == Min(buf.Length, |outcome.output| - old(produced))
                && produced == old(produced) + r.value
                && buf[..r.value] == outcome.output[old(produced)..produced]
                && buf[r.value..] == old(buf[r.value..])
    {
      match outcome
      case Corrupt =>
        return None;
      case Stalls =>
        return Some(0);
      case Inflated(output) =>
        var n := Min(buf.Length, |output| - produced);
        forall k | 0 <= k < n {
          buf[k] := output[produced + k];
        }
        produced := produced + n;
        return Some(n);
    }
  }
}

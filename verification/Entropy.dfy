// Byte strings, results, and the io.Reader that supplies random bytes.

module Basics {
  type byte = bv8
  type Bytes = seq<byte>

  predicate Distinct<T(==)>(s: seq<T>) { forall i, j :: 0 <= i < j < |s| ==> s[i] != s[j] }

  datatype Option<+T> = None | Some(value: T)

  datatype Result<+T, +E> = Ok(value: T) | Err(error: E) {
    predicate IsFailure() { Err? }

    function PropagateFailure<U>(): Result<U, E>
      requires Err?
    {
      Err(error)
    }

    function Extract(): T
      requires Ok?
    {
      value
    }
  }
}

module Entropy {
  import opened Basics

  /** A random source: the bytes it has yet to yield. */
  class Reader {
    var stream: Bytes

    constructor (bytes: Bytes)
      ensures stream == bytes
    {
      stream := bytes;
    }

    /** io.ReadFull: all n bytes, or an error with the source exhausted. */
    method ReadFull(n: nat) returns (r: Option<Bytes>)
      modifies this
      ensures n <= |old(stream)| ==> r == Some(old(stream)[..n]) && stream == old(stream)[n..]
      ensures n > |old(stream)| ==> r.None? && stream == []
    {
      if n <= |stream| {
        r := Some(stream[..n]);
        stream := stream[n..];
      } else {
        r := None;
        stream := [];
      }
    }

    /** The same into a caller's buffer, which keeps whatever a short read delivered. */
    method ReadInto(buffer: array<byte>) returns (ok: bool)
      modifies this, buffer
      ensures ok <==> buffer.Length <= |old(stream)|
      ensures ok ==> buffer[..] == old(stream)[..buffer.Length] && stream == old(stream)[buffer.Length..]
      ensures !ok ==> buffer[..|old(stream)|] == old(stream) && stream == []
    {
      var n := if buffer.Length <= |stream| then buffer.Length else |stream|;
      for i := 0 to n
        invariant stream == old(stream)
        invariant buffer[..i] == stream[..i]
      {
        buffer[i] := stream[i];
      }
      ok := n == buffer.Length;
      stream := stream[n..];
    }
  }
}

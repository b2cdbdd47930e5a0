/** The stack-free backend: whatever the core publishes is what the core fetches back. */
module MirrorBackend {
  import opened Words

  /** What a fetch returns after `data` was published. */
  function MirrorReply(data: seq<byte>, inputBytes: nat, cap: nat): (r: seq<byte>)
    ensures |r| == if inputBytes != 0 then Min(inputBytes, cap) else Min(|data|, cap)
    ensures forall i :: 0 <= i < |r| ==> r[i] == if i < |data| then data[i] else 0
  {
    var n := Min(if inputBytes != 0 then inputBytes else |data|, cap);
    FitTo(data, n)
  }

  class Mirror {
    var image: array<byte>
    var len: nat
    const inputBytes: nat
    var writes: nat

    ghost predicate Valid()
      reads this
    {
      image.Length == MAX_FRAME_BYTES && len <= image.Length
    }

    /** The outputs last published. */
    ghost function Published(): seq<byte>
      requires Valid()
      reads this, image
    {
      image[..len]
    }

    constructor (inputBytes: nat)
      ensures Valid() && Published() == [] && this.inputBytes == inputBytes && fresh(image)
    {
      image := new byte[MAX_FRAME_BYTES](_ => 0);
      len := 0;
      this.inputBytes := inputBytes;
      writes := 0;
    }

    /** lb_publish: keeps at most a frame of what it is given. */
    method Publish(data: seq<byte>)
      requires Valid()
      modifies this, image
      ensures Valid() && image == old(image)
      ensures Published() == data[..Min(|data|, MAX_FRAME_BYTES)]
      ensures writes == old(writes) + 1
    {
      len := Min(|data|, MAX_FRAME_BYTES);
      forall i | 0 <= i < len {
        image[i] := data[i];
      }
      writes := writes + 1;
    }

    /** lb_fetch: fills the front of `out` and leaves the rest of it alone. */
    method Fetch(out: array<byte>) returns (n: nat)
      requires Valid() && out != image
      modifies out
      ensures n <= out.Length && out[..n] == MirrorReply(Published(), inputBytes, out.Length)
      ensures n == if inputBytes != 0 then Min(inputBytes, out.Length) else Min(len, out.Length)
      ensures forall i :: 0 <= i < n ==> out[i] == if i < len then Published()[i] else 0
      ensures out[n..] == old(out[n..])
    {
      n := Min(if inputBytes != 0 then inputBytes else len, out.Length);
      var copy := Min(n, len);
      forall i | 0 <= i < n {
        out[i] := if i < copy then image[i] else 0;
      }
    }
  }
}

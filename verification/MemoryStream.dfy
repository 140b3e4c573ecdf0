/** `cMemoryStream`: the byte store under the codecs, with the two looping helpers
    that `basicInput` and `basicOutput` build on `read` and `write`. */
module MemoryStreams {
  import opened Bits

  /** What `getPipeReadBestRequest` answers for a memory stream. */
  const BEST_REQUEST: nat := 4096

  class MemoryStream {
    var data: seq<byte>
    var position: nat
    const fixedSize: bool

    ghost predicate Valid()
      reads this
    {
      position <= |data|
    }

    /** The bytes behind the file position and the bytes in front of it. */
    ghost function Behind(): seq<byte>
      requires Valid()
      reads this
    {
      data[..position]
    }

    ghost function Ahead(): seq<byte>
      requires Valid()
      reads this
    {
      data[position..]
    }

    /** `n` more bytes can be written. */
    ghost predicate Room(n: nat)
      reads this
    {
      fixedSize ==> position + n <= |data|
    }

    constructor (initData: seq<byte>, fixedSize: bool)
      ensures Valid() && data == initData && position == 0 && this.fixedSize == fixedSize
    {
      data, position := initData, 0;
      this.fixedSize := fixedSize;
    }

    predicate IsEOS()
      reads this
    {
      position == |data|
    }

    method Read(length: nat) returns (buffer: seq<byte>)
      requires Valid()
      modifies this`position
      ensures Valid()
      ensures buffer + Ahead() == old(Ahead())
      ensures |buffer| == Min(length, old(|Ahead()|))
    {
      var count := Min(|data| - position, length);
      buffer := data[position..position + count];
      position := position + count;
    }

    method Write(buffer: seq<byte>) returns (written: nat)
      requires Valid()
      modifies this`data, this`position
      ensures Valid()
      ensures written == if fixedSize then Min(|buffer|, old(|data| - position)) else |buffer|
      ensures Behind() == old(Behind()) + buffer[..written]
      ensures Ahead() == old(Ahead())[Min(written, old(|Ahead()|))..]
    {
      written := Min(|data| - position, |buffer|);
      data := data[..position] + buffer[..written] + data[position + written..];
      position := position + written;
      if written != |buffer| && !fixedSize {
        assert data[..position] == old(Behind()) + buffer[..written];
        data := data[..position] + buffer[written..];
        position := position + (|buffer| - written);
        written := |buffer|;
      }
    }

    /** `basicOutput::pipeWrite`: writes everything. The source spins for ever on a full
        fixed-size stream, so room is what it demands of its callers. */
    method PipeWrite(buffer: seq<byte>)
      requires Valid() && Room(|buffer|)
      modifies this`data, this`position
      ensures Valid()
      ensures Behind() == old(Behind()) + buffer
      ensures Ahead() == old(Ahead())[Min(|buffer|, old(|Ahead()|))..]
    {
      var left := buffer;
      while left != []
        invariant Valid() && Room(|left|)
        invariant |left| <= |buffer| && left == buffer[|buffer| - |left|..]
        invariant Behind() == old(Behind()) + buffer[..|buffer| - |left|]
        invariant Ahead() == old(Ahead())[Min(|buffer| - |left|, old(|Ahead()|))..]
        decreases |left|
      {
        var written := Write(left);
        left := left[written..];
      }
      assert buffer == buffer[..|buffer|];
    }

    /** `basicInput::pipeRead`: reads until the request is met or the stream ends. */
    method PipeRead(length: nat) returns (buffer: seq<byte>)
      requires Valid()
      modifies this`position
      ensures Valid()
      ensures buffer + Ahead() == old(Ahead())
      ensures |buffer| == Min(length, old(|Ahead()|))
    {
      buffer := [];
      while |buffer| < length
        invariant Valid() && |buffer| <= length
        invariant buffer + Ahead() == old(Ahead())
        decreases length - |buffer|, |data| - position
      {
        var piece := Read(Min(length - |buffer|, BEST_REQUEST));
        buffer := buffer + piece;
        if IsEOS() {
          return;
        }
      }
    }
  }
}

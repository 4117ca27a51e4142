/**
 * The opened image file: its bytes and a read position, read with Python
 * file semantics (a read past the end returns fewer bytes, or none).
 */
module ImageFile {
  import opened Common

  /** The bytes `read(size)` returns from position `pos`: at most `size`, fewer at the end of the file. */
  function ReadAt(content: seq<byte>, pos: nat, size: nat): (chunk: seq<byte>)
    ensures |chunk| <= size
    ensures pos + size <= |content| ==> chunk == content[pos..pos + size]
    ensures pos >= |content| ==> chunk == []
  {
    content[Min(pos, |content|)..Min(pos + size, |content|)]
  }

  /** The position after `read(size)` from `pos`: moved past the bytes returned. */
  function PosAfterRead(content: seq<byte>, pos: nat, size: nat): (next: nat)
    ensures next == pos + |ReadAt(content, pos, size)|
  {
    Max(pos, Min(pos + size, |content|))
  }

  /**
   * Two reads in a row return what one read of their combined size returns,
   * and leave the position where it would: reading in chunks loses and
   * repeats nothing.
   */
  lemma ReadsConcatenate(content: seq<byte>, pos: nat, a: nat, b: nat)
    ensures ReadAt(content, pos, a) + ReadAt(content, PosAfterRead(content, pos, a), b) == ReadAt(content, pos, a + b)
    ensures PosAfterRead(content, PosAfterRead(content, pos, a), b) == PosAfterRead(content, pos, a + b)
  {
    var mid := PosAfterRead(content, pos, a);
    if pos >= |content| {
      assert mid == pos;
    } else {
      assert mid == Min(pos + a, |content|);
      assert content[pos..mid] + content[mid..Min(mid + b, |content|)] == content[pos..Min(pos + a + b, |content|)];
    }
  }

  /** An open file object: fixed content, a position that reads and seeks move. */
  class File {
    const content: seq<byte>
    var pos: nat

    /** The file as `open(path, 'rb')` returns it: positioned at the start. */
    constructor (content: seq<byte>)
      ensures this.content == content && pos == 0
    {
      this.content := content;
      pos := 0;
    }

    method Seek(offset: nat)
      modifies this
      ensures pos == offset
    {
      pos := offset;
    }

    method Read(size: nat) returns (chunk: seq<byte>)
      modifies this
      ensures chunk == ReadAt(content, old(pos), size)
      ensures pos == PosAfterRead(content, old(pos), size)
    {
      chunk := content[Min(pos, |content|)..Min(pos + size, |content|)];
      pos := Max(pos, Min(pos + size, |content|));
    }
  }
}

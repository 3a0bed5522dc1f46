/** Caller-owned output buffers: writing from the front and patching what has been written. */
module Buffers {
  import opened Wire

  /** A buffer whose first bytes have been written over and whose others are still original. */
  ghost predicate Written(output: array<Byte>, original: Bytes, done: Bytes)
    reads output
  {
    |done| <= |original| == output.Length && output[..] == done + original[|done|..]
  }

  /** Copies `bytes` to the first place not yet written. */
  method PutNext(output: array<Byte>, offset: nat, bytes: Bytes, ghost original: Bytes, ghost done: Bytes)
    requires Written(output, original, done) && offset == |done| && offset + |bytes| <= output.Length
    modifies output
    ensures Written(output, original, done + bytes)
  {
    assert done + bytes[..0] == done;
    for i := 0 to |bytes|
      invariant Written(output, original, done + bytes[..i])
    {
      PutOne(output, offset + i, bytes[i], original, done + bytes[..i]);
      assert done + bytes[..i] + [bytes[i]] == done + bytes[..i + 1];
    }
    assert bytes[..|bytes|] == bytes;
  }

  method PutOne(output: array<Byte>, offset: nat, b: Byte, ghost original: Bytes, ghost done: Bytes)
    requires Written(output, original, done) && offset == |done| < output.Length
    modifies output
    ensures Written(output, original, done + [b])
  {
    output[offset] := b;
    assert output[..] == (done + original[offset..])[offset := b];
  }

  /** Patching two bytes of what has been written. */
  method PutWord(output: array<Byte>, k: nat, word: U16, ghost original: Bytes, ghost done: Bytes)
    requires Written(output, original, done) && k + 2 <= |done|
    modifies output
    ensures Written(output, original, WithWord(done, k, word))
  {
    hide Be16;
    Be16Pair(word / 0x100, word % 0x100);
    assert Pair(word / 0x100, word % 0x100) == word;
    output[k], output[k + 1] := word / 0x100, word % 0x100;
    assert output[..] == (done + original[|done|..])[k := word / 0x100][k + 1 := word % 0x100];
  }

  lemma WrittenPrefix(output: array<Byte>, original: Bytes, head: Bytes, tail: Bytes)
    requires Written(output, original, head + tail)
    ensures |head| <= output.Length && output[..|head|] == head
  {
    assert output[..|head|] == output[..][..|head|];
  }

  lemma PatchInside(head: Bytes, tail: Bytes, k: nat, word: U16)
    requires k + 2 <= |head|
    ensures WithWord(head + tail, k, word) == WithWord(head, k, word) + tail
  {
  }

  function Patch(done: Bytes, k: nat, bytes: Bytes): (r: Bytes)
    requires k + |bytes| <= |done|
    ensures |r| == |done|
  {
    done[..k] + bytes + done[k + |bytes|..]
  }

  /** Overwrites part of what has been written. */
  method PutAt(output: array<Byte>, k: nat, bytes: Bytes, ghost original: Bytes, ghost done: Bytes)
    requires Written(output, original, done) && k + |bytes| <= |done|
    modifies output
    ensures Written(output, original, Patch(done, k, bytes))
  {
    assert Patch(done, k, bytes[..0]) == done;
    for i := 0 to |bytes|
      invariant Written(output, original, Patch(done, k, bytes[..i]))
    {
      ghost var before := Patch(done, k, bytes[..i]);
      output[k + i] := bytes[i];
      assert output[..] == (before + original[|before|..])[k + i := bytes[i]];
      assert Patch(done, k, bytes[..i + 1]) == before[k + i := bytes[i]];
    }
    assert bytes[..|bytes|] == bytes;
  }

  lemma PatchZeros(head: Bytes, bytes: Bytes, left: nat)
    requires |bytes| <= left
    ensures Patch(head + Zeros(left), |head|, bytes) == head + bytes + Zeros(left - |bytes|)
  {
  }
}

/** Buffered file streams: reading a file through a buffer as if it were the plain bytes, and
    writing one so that nothing is lost or reordered. */
module FileStreams {
  import opened Basics
  import opened Utf8

  /** How far a reader gets that has taken n bytes: not beyond the end of the file. */
  function Advance(file: Bytes, position: nat): nat {
    if position < |file| then position + 1 else position
  }

  class FileReadStream {
    const file: Bytes
    const buffer: array<bv8>
    var filePosition: nat
    var bufferLast: int
    var current: nat
    var readCount: nat
    var count: nat
    var eof: bool

    /** The buffer holds the file from count on; it ends with a NUL where the file ends in it. */
    ghost predicate Valid()
      reads this, buffer
    {
      && buffer.Length >= 4 && readCount <= buffer.Length
      && filePosition == count + readCount <= |file|
      && buffer[..readCount] == file[count..filePosition]
      && current <= bufferLast
      && if eof then filePosition == |file| && bufferLast == readCount < buffer.Length && buffer[readCount] == 0
         else readCount == buffer.Length && bufferLast == readCount - 1
    }

    ghost function Position(): (p: nat)
      reads this, buffer
      requires Valid()
      ensures p <= |file|
    {
      count + current
    }

    constructor (file: Bytes, buffer: array<bv8>)
      requires buffer.Length >= 4
      modifies buffer
      ensures Valid() && this.file == file && this.buffer == buffer && Position() == 0
    {
      this.file, this.buffer := file, buffer;
      filePosition, bufferLast, current, readCount, count, eof := 0, 0, 0, 0, 0, false;
      new;
      Fill();
    }

    /** fread: as many bytes as the buffer holds and the file still has. */
    method ReadFile() returns (n: nat)
      requires filePosition <= |file|
      modifies this`filePosition, buffer
      ensures n == if |file| - old(filePosition) < buffer.Length then |file| - old(filePosition) else buffer.Length
      ensures filePosition == old(filePosition) + n
      ensures buffer[..n] == file[old(filePosition)..filePosition]
    {
      n := 0;
      while n < buffer.Length && filePosition < |file|
        invariant n <= buffer.Length && filePosition == old(filePosition) + n <= |file|
        invariant buffer[..n] == file[old(filePosition)..filePosition]
        decreases |file| - filePosition
      {
        buffer[n] := file[filePosition];
        n, filePosition := n + 1, filePosition + 1;
      }
    }

    /** The next part of the file into the buffer. */
    method Fill()
      requires buffer.Length >= 4 && filePosition == count + readCount <= |file| && !eof
      modifies this, buffer
      ensures Valid() && count == old(count) + old(readCount) && current == 0
    {
      count := count + readCount;
      readCount := ReadFile();
      bufferLast := readCount - 1;
      current := 0;
      if readCount < buffer.Length {
        ghost var read := buffer[..readCount];
        buffer[readCount] := 0;
        assert buffer[..readCount] == read;
        bufferLast := bufferLast + 1;
        eof := true;
      }
    }

    method Read()
      requires Valid()
      modifies this, buffer
      ensures Valid() && Position() == Advance(file, old(Position()))
    {
      if current < bufferLast {
        current := current + 1;
      } else if !eof {
        Fill();
      }
    }

    method Peek() returns (c: bv8)
      requires Valid()
      ensures c == At(file, Position())
    {
      c := buffer[current];
      assert current < readCount ==> buffer[..readCount][current] == file[count..filePosition][current];
    }

    method Take() returns (c: bv8)
      requires Valid()
      modifies this, buffer
      ensures Valid() && c == At(file, old(Position())) && Position() == Advance(file, old(Position()))
    {
      c := Peek();
      Read();
    }

    method Tell() returns (offset: nat)
      requires Valid()
      ensures offset == Position()
    {
      offset := count + current;
    }

    /** Four bytes ahead, where the buffer holds them: they are the file's, and at the end of the file
        they are refused only when it has no four more. */
    method Peek4() returns (ahead: Option<Bytes>)
      requires Valid()
      ensures ahead.Some? ==> Position() + 4 <= |file| && ahead.value == file[Position()..Position() + 4]
      ensures eof ==> (ahead.Some? <==> Position() + 4 <= |file|)
    {
      if current + 4 - (if eof then 0 else 1) <= bufferLast {
        ahead := Some(buffer[current..current + 4]);
        SliceOfBuffer(buffer[..], file, count, readCount, current);
      } else {
        ahead := None;
      }
    }
  }

  lemma {:induction false} SliceOfBuffer(buffer: Bytes, file: Bytes, count: nat, n: nat, k: nat)
    requires n <= |buffer| && count + n <= |file| && buffer[..n] == file[count..count + n] && k + 4 <= n
    ensures buffer[k..k + 4] == file[count + k..count + k + 4]
  {
    var part, here := file[count..count + n], buffer[..n];
    var a, b := buffer[k..k + 4], file[count + k..count + k + 4];
    forall i | 0 <= i < 4 ensures a[i] == b[i] {
      assert here[k + i] == part[k + i];
    }
  }

  /** What a reader takes in n steps: the file, and NULs without end behind it. */
  method TakeMany(input: FileReadStream, n: nat) returns (taken: Bytes)
    requires input.Valid() && input.Position() == 0
    modifies input, input.buffer
    ensures input.Valid() && taken == Taken(input.file, 0, n)
    ensures input.Position() == if n < |input.file| then n else |input.file|
  {
    taken := [];
    for i := 0 to n
      invariant input.Valid() && taken == Taken(input.file, 0, i)
      invariant input.Position() == if i < |input.file| then i else |input.file|
    {
      var c := input.Take();
      taken := taken + [c];
    }
  }

  // ----- Writing -----

  function Repeat(c: bv8, n: nat): (s: Bytes)
    ensures |s| == n && forall i | 0 <= i < n :: s[i] == c
  {
    if n == 0 then [] else Repeat(c, n - 1) + [c]
  }

  lemma {:induction false} RepeatMore(before: Bytes, c: bv8, m: nat, n: nat)
    ensures before + Repeat(c, m) + Repeat(c, n) == before + Repeat(c, m + n)
  {}

  class FileWriteStream {
    const buffer: array<bv8>
    var file: Bytes
    var current: nat

    ghost predicate Valid()
      reads this
    {
      buffer.Length > 0 && current <= buffer.Length
    }

    /** Everything put so far: what the file has, and what the buffer still holds. */
    ghost function Contents(): Bytes
      reads this, buffer
      requires Valid()
    {
      file + buffer[..current]
    }

    constructor (file: Bytes, buffer: array<bv8>)
      requires buffer.Length > 0
      ensures Valid() && Contents() == file && this.buffer == buffer
    {
      this.file, this.buffer, current := file, buffer, 0;
    }

    method Flush()
      requires Valid()
      modifies this
      ensures Valid() && current == 0 && file == old(Contents()) && Contents() == old(Contents())
    {
      if current != 0 {
        file := file + buffer[..current];
        current := 0;
      }
      assert buffer[..current] == [];
    }

    method Put(c: bv8)
      requires Valid()
      modifies this, buffer
      ensures Valid() && Contents() == old(Contents()) + [c]
    {
      if current >= buffer.Length {
        Flush();
      }
      ghost var held := buffer[..current];
      buffer[current] := c;
      current := current + 1;
      assert buffer[..current] == held + [c];
    }

    /** memset: n times the same byte behind what the buffer holds. */
    method Set(c: bv8, n: nat)
      requires Valid() && current + n <= buffer.Length
      modifies this`current, buffer
      ensures Valid() && current == old(current) + n && Contents() == old(Contents()) + Repeat(c, n)
    {
      ghost var held := buffer[..current];
      for i := 0 to n
        invariant current == old(current)
        invariant buffer[..current + i] == held + Repeat(c, i)
      {
        buffer[current + i] := c;
        assert buffer[..current + (i + 1)] == buffer[..current + i] + [c];
      }
      current := current + n;
      assert file + (held + Repeat(c, n)) == file + held + Repeat(c, n);
    }

    /** The buffer is filled and flushed as often as it takes. */
    method PutN(c: bv8, n: nat)
      requires Valid()
      modifies this, buffer
      ensures Valid() && Contents() == old(Contents()) + Repeat(c, n)
    {
      var left: nat := n;
      var avail: nat := buffer.Length - current;
      assert old(Contents()) + [] == old(Contents());
      while left > avail
        invariant Valid() && left <= n && avail == buffer.Length - current
        invariant left < n ==> current == 0
        invariant Contents() == old(Contents()) + Repeat(c, n - left)
        decreases left, if current == 0 then 0 else 1
      {
        RepeatMore(old(Contents()), c, n - left, avail);
        Set(c, avail);
        Flush();
        left := left - avail;
        avail := buffer.Length - current;
      }
      RepeatMore(old(Contents()), c, n - left, left);
      if left > 0 {
        Set(c, left);
      }
    }
  }
}

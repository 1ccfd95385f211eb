/** The growable byte buffer of a connection. */
module Buffer {

  const CHEAP_PREPEND: nat := 8
  const INITIAL_SIZE: nat := 1024
  const EXTRA_SIZE: nat := 65536

  const CRLF: string := "\r\n"

  predicate CRLFAt(s: string, i: int) {
    0 <= i && i + 1 < |s| && s[i] == '\r' && s[i + 1] == '\n'
  }

  /** The position of the first line end, or -1. */
  function IndexOfCRLF(s: string): (r: int)
    ensures r == -1 || (CRLFAt(s, r) && forall i :: 0 <= i < r ==> !CRLFAt(s, i))
    ensures r == -1 ==> forall i :: 0 <= i < |s| ==> !CRLFAt(s, i)
  {
    if |s| < 2 then -1
    else if CRLFAt(s, 0) then 0
    else
      var r := IndexOfCRLF(s[1..]);
      assert forall i :: 1 <= i < |s| ==> CRLFAt(s, i) == CRLFAt(s[1..], i - 1);
      if r == -1 then -1 else r + 1
  }

  lemma IndexUnique(s: string, i: nat)
    requires CRLFAt(s, i) && forall j :: 0 <= j < i ==> !CRLFAt(s, j)
    ensures IndexOfCRLF(s) == i
  {
    var r := IndexOfCRLF(s);
    assert !(r != -1 && r < i);
  }

  function Concat(chunks: seq<string>): string {
    if chunks == [] then [] else chunks[0] + Concat(chunks[1..])
  }

  class Buffer {
    var data: seq<char>
    var readerIndex: nat
    var writerIndex: nat

    ghost predicate Valid()
      reads this
    {
      readerIndex <= writerIndex <= |data| && |data| >= CHEAP_PREPEND
    }

    ghost function Readable(): string
      requires Valid()
      reads this
    {
      data[readerIndex..writerIndex]
    }

    function ReadableBytes(): nat
      requires Valid()
      reads this
    {
      writerIndex - readerIndex
    }

    function WritableBytes(): nat
      requires Valid()
      reads this
    {
      |data| - writerIndex
    }

    function PrependableBytes(): nat
      reads this
    {
      readerIndex
    }

    constructor ()
      ensures Valid() && Readable() == []
      ensures WritableBytes() == INITIAL_SIZE && PrependableBytes() == CHEAP_PREPEND
    {
      data := seq(CHEAP_PREPEND + INITIAL_SIZE, _ => '\0');
      readerIndex, writerIndex := CHEAP_PREPEND, CHEAP_PREPEND;
    }

    method Retrieve(len: nat)
      requires Valid() && len <= ReadableBytes()
      modifies this`readerIndex
      ensures Valid() && Readable() == old(Readable())[len..]
    {
      readerIndex := readerIndex + len;
    }

    method RetrieveAll()
      requires Valid()
      modifies this`readerIndex, this`writerIndex
      ensures Valid() && Readable() == []
    {
      readerIndex, writerIndex := CHEAP_PREPEND, CHEAP_PREPEND;
    }

    method RetrieveAsString() returns (str: string)
      requires Valid()
      modifies this`readerIndex, this`writerIndex
      ensures Valid() && str == old(Readable()) && Readable() == []
    {
      str := data[readerIndex..writerIndex];
      RetrieveAll();
    }

    /**
     * Grows the storage or moves the readable bytes down to the front. It moves them only when there is
     * really room below them, and either way the requested room is there afterwards.
     */
    method MakeSpace(len: nat)
      requires Valid() && WritableBytes() < len
      modifies this
      ensures Valid() && Readable() == old(Readable()) && WritableBytes() >= len
      ensures |data| != old(|data|) ==> readerIndex == old(readerIndex)
      ensures |data| == old(|data|) ==> old(readerIndex) > CHEAP_PREPEND == readerIndex
    {
      if WritableBytes() + PrependableBytes() < len + CHEAP_PREPEND {
        data := data + seq(writerIndex + len - |data|, _ => '\0');
      } else {
        assert CHEAP_PREPEND < readerIndex;
        ghost var was := Readable();
        var readable := ReadableBytes();
        data := data[..CHEAP_PREPEND] + data[readerIndex..writerIndex] + data[CHEAP_PREPEND + readable..];
        readerIndex := CHEAP_PREPEND;
        writerIndex := readerIndex + readable;
        assert Readable() == was;
      }
    }

    method Append(str: string)
      requires Valid()
      modifies this
      ensures Valid() && Readable() == old(Readable()) + str
    {
      if WritableBytes() < |str| { MakeSpace(|str|); }
      data := data[..writerIndex] + str + data[writerIndex + |str|..];
      writerIndex := writerIndex + |str|;
    }

    method Prepend(str: string)
      requires Valid() && |str| <= PrependableBytes()
      modifies this
      ensures Valid() && Readable() == str + old(Readable())
    {
      var tail := data[readerIndex..];
      assert tail[..ReadableBytes()] == Readable();
      readerIndex := readerIndex - |str|;
      data := data[..readerIndex] + (str + tail);
      assert data[readerIndex..] == str + tail;
      assert Readable() == data[readerIndex..][..writerIndex - readerIndex];
    }

    method FindCRLF() returns (i: int)
      requires Valid()
      ensures i == IndexOfCRLF(Readable())
    {
      ghost var s := Readable();
      i := 0;
      while i + 1 < ReadableBytes()
        invariant 0 <= i && forall j :: 0 <= j < i ==> !CRLFAt(s, j)
      {
        assert s[i] == data[readerIndex + i] && s[i + 1] == data[readerIndex + i + 1];
        if data[readerIndex + i] == '\r' && data[readerIndex + i + 1] == '\n' {
          IndexUnique(s, i);
          return;
        }
        i := i + 1;
      }
      assert forall j :: 0 <= j < |s| ==> !CRLFAt(s, j);
      i := -1;
    }

    /**
     * One scatter read: the kernel hands over the first n bytes of the stream, first into the free space,
     * then into a spare block that is appended afterwards. A negative n is a failed read.
     */
    method ReadFd(n: int, stream: string)
      requires Valid() && n <= WritableBytes() + EXTRA_SIZE && n <= |stream|
      modifies this
      ensures Valid() && Readable() == if n < 0 then old(Readable()) else old(Readable()) + stream[..n]
    {
      var writable := WritableBytes();
      if n < 0 {
      } else if n <= writable {
        data := data[..writerIndex] + stream[..n] + data[writerIndex + n..];
        writerIndex := writerIndex + n;
      } else {
        ghost var was := Readable();
        data := data[..writerIndex] + stream[..writable];
        writerIndex := |data|;
        assert Readable() == was + stream[..writable];
        Append(stream[writable..n]);
        assert stream[..n] == stream[..writable] + stream[writable..n];
      }
    }
  }
}

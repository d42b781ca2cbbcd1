/** `FixedBuffer` of base/log_stream.h: a character array and a write position. */
module LogBuffer {
  const SMALL_BUFFER := 4000
  const LARGE_BUFFER := 4000 * 1000

  class FixedBuffer {
    const data: array<char>
    var cur: nat
    ghost var text: string  // what has been appended since the last reset

    ghost predicate Valid()
      reads this, data
    {
      cur <= data.Length && text == data[..cur]
    }

    function Avail(): int
      reads this
    {
      data.Length - cur
    }

    constructor (size: nat)
      ensures Valid() && fresh(data) && data.Length == size && cur == 0
    {
      data := new char[size];
      cur, text := 0, "";
    }

    /** All of `buf` if more than its length is available, else only what fills the buffer. */
    method Append(buf: string)
      requires Valid()
      modifies this, data
      ensures Valid()
      ensures text == old(text) + (if old(Avail()) > |buf| then buf else buf[..old(Avail())])
    {
      var len := if Avail() > |buf| then |buf| else Avail();
      var start := cur;
      forall i | 0 <= i < len {
        data[start + i] := buf[i];
      }
      assert data[start..start + len] == buf[..len];
      assert data[..start] == old(data[..cur]);
      cur, text := cur + len, text + buf[..len];
    }

    /** Accepts characters that were written directly behind the write position. */
    method Add(len: nat)
      requires cur + len <= data.Length && text == data[..cur]
      modifies this
      ensures Valid() && text == old(text) + data[old(cur)..old(cur) + len]
    {
      text, cur := text + data[cur..cur + len], cur + len;
    }

    method Reset()
      modifies this
      ensures Valid() && cur == 0 && text == ""
    {
      cur, text := 0, "";
    }
  }
}

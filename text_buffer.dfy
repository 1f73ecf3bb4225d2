/**
 * The character row buffer of a terminal: a fixed-length array of characters
 * whose writes clip silently to the array's bounds.
 *
 * Every write is specified by one reference function, `Written`, which says
 * where a string lands when its first character is placed on a given cell.
 * The fills, the single-cell set and the buffer-to-buffer copy are related to
 * `Written` by the lemmas below.
 */
module Terminal {
  import opened Wrappers

  /** A Java `byte`: a signed two's-complement 8-bit integer. */
  type SignedByte = x: int | -128 <= x < 128

  /** `b & 0xFF` for a byte promoted to `int`: the unsigned value of its eight bits. */
  function Unsigned(b: SignedByte): (r: int)
    ensures 0 <= r < 256
    ensures (r - b) % 256 == 0
    ensures b >= 0 ==> r == b
  {
    if b < 0 then b + 256 else b
  }

  /** Each byte read as the character whose code is the byte's unsigned value (Latin-1). */
  function Latin1(bytes: seq<SignedByte>): (s: string)
    ensures |s| == |bytes|
    ensures forall i :: 0 <= i < |s| ==> s[i] as int == Unsigned(bytes[i])
  {
    seq(|bytes|, i requires 0 <= i < |bytes| => Unsigned(bytes[i]) as char)
  }

  /** `n` copies of `c`. */
  function Repeat(c: char, n: nat): (r: seq<char>)
    ensures |r| == n
    ensures forall i :: 0 <= i < n ==> r[i] == c
  {
    seq(n, _ => c)
  }

  /**
   * The reference meaning of a write: `s` is laid over `cells` with its first
   * character on cell `start`. Cell `i` takes `s[i - start]` when that index of
   * `s` exists and keeps its old character otherwise; characters of `s` that
   * fall before cell 0 or after the last cell are dropped.
   */
  function Written(cells: seq<char>, s: string, start: int): (r: seq<char>)
    ensures |r| == |cells|
  {
    seq(|cells|, i requires 0 <= i < |cells| =>
      if start <= i < start + |s| then s[i - start] else cells[i])
  }

  /** The reference meaning of a range fill: every cell with index in `[start, end)` becomes `c`. */
  function Filled(cells: seq<char>, c: char, start: int, end: int): (r: seq<char>)
    ensures |r| == |cells|
  {
    seq(|cells|, i requires 0 <= i < |cells| => if start <= i < end then c else cells[i])
  }

  /** The cells a write changes are exactly those of the clipped range `[max(start, 0), min(start + |s|, |cells|))`. */
  lemma WrittenClipped(cells: seq<char>, s: string, start: int)
    ensures forall i :: 0 <= i < |cells| ==>
      Written(cells, s, start)[i] ==
        if Max(start, 0) <= i < Min(start + |s|, |cells|) then s[i - start] else cells[i]
  {
  }

  /** A write that lies wholly before cell 0 or wholly after the last cell changes nothing. */
  lemma WrittenNoOp(cells: seq<char>, s: string, start: int)
    requires start >= |cells| || start + |s| <= 0
    ensures Written(cells, s, start) == cells
  {
  }

  /** A write that fits inside the buffer can be read back unchanged, and no other cell moves. */
  lemma WrittenReadBack(cells: seq<char>, s: string, start: int)
    requires 0 <= start && start + |s| <= |cells|
    ensures Written(cells, s, start) == cells[..start] + s + cells[start + |s|..]
  {
  }

  /** Writing `s1` and then `s2` right after it is the same as writing `s1 + s2` in one go. */
  lemma WrittenSplit(cells: seq<char>, s1: string, s2: string, start: int)
    ensures Written(Written(cells, s1, start), s2, start + |s1|) == Written(cells, s1 + s2, start)
  {
  }

  /** Repeating a write changes nothing more. */
  lemma WrittenIdempotent(cells: seq<char>, s: string, start: int)
    ensures Written(Written(cells, s, start), s, start) == Written(cells, s, start)
  {
  }

  /** A write at cell 0 replaces the first `min(|src|, |cells|)` cells by `src`'s prefix and keeps the rest. */
  lemma WrittenAtZero(cells: seq<char>, src: string)
    ensures var m := Min(|src|, |cells|);
      Written(cells, src, 0) == src[..m] + cells[m..]
  {
  }

  /** A non-empty range fill is a write of `end - start` copies of `c` at `start`; an empty one changes nothing. */
  lemma FilledAsWritten(cells: seq<char>, c: char, start: int, end: int)
    ensures start < end ==> Filled(cells, c, start, end) == Written(cells, Repeat(c, end - start), start)
    ensures start >= end ==> Filled(cells, c, start, end) == cells
  {
  }

  /** Filling the whole range makes every cell `c`. */
  lemma FilledAll(cells: seq<char>, c: char)
    ensures Filled(cells, c, 0, |cells|) == Repeat(c, |cells|)
  {
  }

  /** A single-cell set is a one-character write: inside the buffer it updates exactly that cell, outside it changes nothing. */
  lemma SetAsWritten(cells: seq<char>, i: int, c: char)
    ensures Written(cells, [c], i) == if 0 <= i < |cells| then cells[i := c] else cells
  {
  }

  /**
   * A `java.nio.ByteBuffer` as far as the buffer write uses it: its bytes, the
   * read position and the limit. Its absolute `get` reads any index below the
   * limit without moving the position.
   */
  class ByteBuffer {
    var bytes: seq<SignedByte>
    var position: int
    var limit: int

    ghost predicate Valid()
      reads this
    {
      0 <= position <= limit <= |bytes|
    }

    constructor (bytes: seq<SignedByte>, position: int, limit: int)
      requires 0 <= position <= limit <= |bytes|
      ensures Valid()
      ensures this.bytes == bytes && this.position == position && this.limit == limit
    {
      this.bytes := bytes;
      this.position := position;
      this.limit := limit;
    }

    /** The bytes between the position and the limit. */
    function RemainingBytes(): (r: seq<SignedByte>)
      reads this
      requires Valid()
      ensures |r| == limit - position
    {
      bytes[position..limit]
    }

    /** Absolute `get(index)`: defined for every index below the limit. */
    function Get(index: int): (b: SignedByte)
      reads this
      requires Valid()
      requires 0 <= index < limit
    {
      bytes[index]
    }
  }

  class TextBuffer {
    /** The cells; the array is fixed at construction, so the length never changes. */
    const text: array<char>

    /** A buffer of `length` cells, each `c`. */
    constructor OfChar(c: char, length: nat)
      ensures fresh(text)
      ensures ToString() == Repeat(c, length)
    {
      text := new char[length];
      new;
      Fill(c);
    }

    /** A buffer holding the characters of `s`. */
    constructor FromString(s: string)
      ensures fresh(text)
      ensures ToString() == s
    {
      text := new char[|s|](i requires 0 <= i < |s| => s[i]);
    }

    /** The cells, read as a string. */
    function ToString(): (s: string)
      reads this, text
      ensures |s| == text.Length
      ensures forall i :: 0 <= i < |s| ==> s[i] == text[i]
    {
      text[..]
    }

    function Length(): (n: nat)
      reads this, text
      ensures n == |ToString()|
    {
      text.Length
    }

    function CharAt(i: int): (c: char)
      reads this, text
      requires 0 <= i < Length()
      ensures c == ToString()[i]
    {
      text[i]
    }

    /** `write(text)`: a write at cell 0. */
    method Write(s: string)
      modifies text
      ensures text[..] == Written(old(text[..]), s, 0)
    {
      WriteAt(s, 0);
    }

    /** `write(text, start)`: lays `s` over the cells with its first character on cell `start`, clipped to the buffer. */
    method WriteAt(s: string, start: int)
      modifies text
      ensures text[..] == Written(old(text[..]), s, start)
    {
      var pos := start;
      var first := Max(start, 0);
      var end := Min(first + |s|, pos + |s|);
      end := Min(end, text.Length);
      var i := first;
      while i < end
        invariant first <= i <= Max(first, end)
        invariant forall k :: 0 <= k < text.Length ==>
          text[k] == if first <= k < i then s[k - pos] else old(text[k])
      {
        text[i] := s[i - pos];
        i := i + 1;
      }
      assert text[..] == Written(old(text[..]), s, start);
    }

    /**
     * `write(ByteBuffer, start)`: lays the buffer's remaining bytes, each read as
     * its unsigned value, over the cells from cell `start`, clipped as for a string.
     * The byte buffer is only read; its position does not move.
     */
    method WriteBytes(b: ByteBuffer, start: int)
      requires b.Valid()
      modifies text
      ensures text[..] == Written(old(text[..]), Latin1(b.RemainingBytes()), start)
      ensures b.position == old(b.position)
    {
      var pos := start;
      var bufferPos := b.position;
      var first := Max(start, 0);
      var length := b.limit - b.position;
      var end := Min(first + length, pos + length);
      end := Min(end, text.Length);
      ghost var src := Latin1(b.RemainingBytes());
      var i := first;
      while i < end
        invariant first <= i <= Max(first, end)
        invariant forall k :: 0 <= k < text.Length ==>
          text[k] == if first <= k < i then src[k - pos] else old(text[k])
      {
        text[i] := Unsigned(b.Get(bufferPos + i - pos)) as char;
        i := i + 1;
      }
      assert text[..] == Written(old(text[..]), src, start);
    }

    /** `write(TextBuffer)`: copies the first `min(other.length, length)` cells of `other`. */
    method WriteBuffer(other: TextBuffer)
      modifies text
      ensures text[..] == Written(old(text[..]), old(other.text[..]), 0)
    {
      var end := Min(other.Length(), text.Length);
      var i := 0;
      while i < end
        invariant 0 <= i <= end
        invariant forall k :: 0 <= k < i ==> text[k] == old(other.text[k])
        invariant forall k :: i <= k < text.Length ==> text[k] == old(text[k])
        invariant other.text != text ==> other.text[..] == old(other.text[..])
      {
        text[i] := other.CharAt(i);
        i := i + 1;
      }
      assert text[..] == Written(old(text[..]), old(other.text[..]), 0);
    }

    /** `fill(c)`: every cell becomes `c`. */
    method Fill(c: char)
      modifies text
      ensures text[..] == Filled(old(text[..]), c, 0, text.Length)
      ensures text[..] == Repeat(c, text.Length)
    {
      FillRange(c, 0, text.Length);
      FilledAll(old(text[..]), c);
    }

    /** `fill(c, start, end)`: the cells with index in `[start, end)` that exist become `c`. */
    method FillRange(c: char, start: int, end: int)
      modifies text
      ensures text[..] == Filled(old(text[..]), c, start, end)
    {
      var first := Max(start, 0);
      var last := Min(end, text.Length);
      var i := first;
      while i < last
        invariant first <= i <= Max(first, last)
        invariant forall k :: 0 <= k < text.Length ==>
          text[k] == if first <= k < i then c else old(text[k])
      {
        text[i] := c;
        i := i + 1;
      }
      assert text[..] == Filled(old(text[..]), c, start, end);
    }

    /** `setChar(i, c)`: sets cell `i` when it exists and otherwise does nothing. */
    method SetChar(i: int, c: char)
      modifies text
      ensures text[..] == if 0 <= i < text.Length then old(text[..])[i := c] else old(text[..])
      ensures text[..] == Written(old(text[..]), [c], i)
    {
      if 0 <= i < text.Length {
        text[i] := c;
      }
      SetAsWritten(old(text[..]), i, c);
    }
  }
}

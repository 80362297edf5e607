/** A string that keeps up to 23 bytes in itself and longer ones in a block of the heap. */
module SmallString {

  type Byte = b: int | 0 <= b < 256

  const LEN := 24
  const LAST := LEN - 1
  const ON_HEAP: Byte := 128

  /** memcpy between different objects. */
  method CopyBytes(dst: array<Byte>, at: nat, src: array<Byte>, n: nat)
    requires dst != src && at + n <= dst.Length && n <= src.Length
    modifies dst
    ensures forall i :: 0 <= i < dst.Length ==> dst[i] == if at <= i < at + n then src[i - at] else old(dst[i])
  {
    forall i | 0 <= i < n {
      dst[at + i] := src[i];
    }
  }

  lemma JoinedBytes(a: array<Byte>, m: nat, n: nat, x: seq<Byte>, y: seq<Byte>)
    requires m + n <= a.Length && |x| == m && |y| == n
    requires forall i :: 0 <= i < m ==> a[i] == x[i]
    requires forall i :: m <= i < m + n ==> a[i] == y[i - m]
    ensures a[..m + n] == x + y
  {
  }

  class String {
    /** The bytes of the object. The last one holds the spare room, or marks the heap. */
    const buf: array<Byte>
    /** The view of a heap block. It shares the bytes of buf, so it means nothing
        while the string is inline. */
    var block: array?<Byte>
    var blockSize: nat
    var blockCapacity: nat

    ghost predicate Valid()
      reads this, buf, block
    {
      && buf.Length == LEN
      && block != buf
      && if buf[LAST] < 128 then
           buf[LAST] <= LAST && buf[LAST - buf[LAST]] == 0
         else
           && buf[LAST] == ON_HEAP
           && block != null
           && blockSize < blockCapacity == block.Length
           && block[blockSize] == 0
    }

    /** The bytes of the string, without the terminator. */
    ghost function Contents(): seq<Byte>
      requires Valid()
      reads this, buf, block
    {
      if buf[LAST] < 128 then buf[..LAST - buf[LAST]] else block[..blockSize]
    }

    /** The two strings share no memory. */
    ghost predicate ApartFrom(other: String)
      reads this, other
    {
      && this != other
      && buf != other.buf && buf != other.block && block != other.buf
      && (block != null ==> block != other.block)
    }

    predicate IsOnStack()
      requires buf.Length == LEN
      reads buf
    {
      buf[LAST] < 128
    }

    /** size(): the spare room is in the low five bits of the last byte. */
    function Size(): (n: nat)
      requires Valid()
      reads this, buf, block
      ensures n == |Contents()|
    {
      if IsOnStack() then LAST - buf[LAST] % 32 else blockSize
    }

    /** c_str(). */
    function Bytes(): (a: array<Byte>)
      requires Valid()
      reads this, buf, block
      ensures a.Length > Size() && a[Size()] == 0 && a[..Size()] == Contents()
      ensures a == if IsOnStack() then buf else block
    {
      if IsOnStack() then buf else block
    }

    /** Writing the view overwrites inline bytes; only the last byte is spared. */
    method SetView(p: array<Byte>, size: nat, capacity: nat)
      requires buf.Length == LEN && buf != p
      modifies this, buf
      ensures block == p && blockSize == size && blockCapacity == capacity
      ensures buf[LAST] == old(buf[LAST])
    {
      block, blockSize, blockCapacity := p, size, capacity;
      forall i | 0 <= i < 16 {
        buf[i] := 0;
      }
    }

    /** allocate: room for sz bytes, of which only the terminator is set. */
    method Allocate(sz: nat) returns (room: array<Byte>)
      requires buf.Length == LEN && block != buf
      modifies this, buf
      ensures Valid() && Size() == sz && room == Bytes() && IsOnStack() == (sz <= 23)
      ensures IsOnStack() || fresh(room)
      ensures IsOnStack() ==> block == null
    {
      if sz <= LAST {
        block := null;
        buf[sz] := 0;
        buf[LAST] := LAST - sz;
        room := buf;
      } else {
        buf[LAST] := ON_HEAP;
        room := new Byte[sz + 1];
        SetView(room, sz, sz + 1);
        room[sz] := 0;
      }
    }

    constructor ()
      ensures Valid() && Contents() == [] && fresh(buf) && block == null
    {
      buf := new Byte[LEN];
      block, blockSize, blockCapacity := null, 0, 0;
      new;
      buf[0] := 0;
      buf[LAST] := LAST;
    }

    constructor FromBytes(bytes: array<Byte>, n: nat)
      requires n <= bytes.Length
      ensures Valid() && Contents() == bytes[..n] && fresh(buf) && (block == null || fresh(block))
    {
      buf := new Byte[LEN];
      block, blockSize, blockCapacity := null, 0, 0;
      new;
      var room := Allocate(n);
      CopyBytes(room, 0, bytes, n);
      assert Contents() == bytes[..n];
    }

    /** copy: all the bytes of an inline string, a new block for another. */
    method Copy(other: String)
      requires buf.Length == LEN && other.Valid() && block != buf && block != other.buf
      requires this != other && buf != other.buf && buf != other.block
      modifies this, buf
      ensures Valid() && Contents() == other.Contents()
      ensures block == null || fresh(block)
      ensures ApartFrom(other)
    {
      if other.IsOnStack() {
        block := null;
        CopyBytes(buf, 0, other.buf, LEN);
        assert Contents() == other.Contents();
      } else {
        ghost var value := other.Contents();
        var room := Allocate(other.blockSize);
        CopyBytes(room, 0, other.block, other.blockSize);
        assert Contents() == value;
      }
    }

    constructor CopyOf(other: String)
      requires other.Valid()
      ensures Valid() && Contents() == other.Contents() && ApartFrom(other)
      ensures fresh(buf) && (block == null || fresh(block))
    {
      buf := new Byte[LEN];
      block, blockSize, blockCapacity := null, 0, 0;
      new;
      Copy(other);
    }

    /** operator=. The old block, if any, is given up. */
    method Assign(other: String)
      requires Valid() && other.Valid() && (this == other || ApartFrom(other))
      modifies this, buf
      ensures Valid() && Contents() == old(other.Contents())
      ensures this != other ==> ApartFrom(other) && other.Valid() && other.Contents() == old(other.Contents())
      ensures block == null || block == old(block) || fresh(block)
    {
      if this != other {
        Copy(other);
      }
    }

    /** operator+=, for another string. */
    method Append(other: String)
      requires Valid() && other.Valid() && ApartFrom(other)
      modifies this, buf, block
      ensures Valid() && Contents() == old(Contents()) + old(other.Contents())
      ensures ApartFrom(other) && other.Valid() && other.Contents() == old(other.Contents())
      ensures block == old(block) || fresh(block)
      ensures IsOnStack() == (old(IsOnStack()) && |Contents()| <= 23)
    {
      var oldSize := Size();
      var otherSize := other.Size();
      var total := oldSize + otherSize;
      if IsOnStack() {
        if total < LEN {
          AppendInline(other, oldSize, otherSize);
        } else {
          MoveToHeap(other, oldSize, otherSize);
        }
      } else if blockCapacity > total {
        AppendInBlock(other, oldSize, otherSize);
      } else {
        Grow(other, oldSize, otherSize);
      }
    }

    method AppendInline(other: String, oldSize: nat, otherSize: nat)
      requires Valid() && other.Valid() && ApartFrom(other)
      requires IsOnStack() && oldSize == Size() && otherSize == other.Size() && oldSize + otherSize < LEN
      modifies buf
      ensures Valid() && Contents() == old(Contents()) + old(other.Contents()) && IsOnStack()
      ensures other.Valid() && other.Contents() == old(other.Contents())
    {
      ghost var mine, theirs := Contents(), other.Contents();
      CopyBytes(buf, oldSize, other.Bytes(), otherSize + 1);
      buf[LAST] := LAST - (oldSize + otherSize);
      JoinedBytes(buf, oldSize, otherSize, mine, theirs);
    }

    /** The new block, which holds the old bytes already, replaces whatever there was, and
        the other string is written behind them. */
    method Adopt(temp: array<Byte>, other: String, oldSize: nat, otherSize: nat)
      requires buf.Length == LEN && buf[LAST] == ON_HEAP && temp != buf && oldSize + otherSize < temp.Length
      requires other.Valid() && otherSize == other.Size()
      requires this != other && buf != other.buf && buf != other.block && temp != other.buf && temp != other.block
      modifies this, buf, temp
      ensures Valid() && !IsOnStack() && block == temp && blockCapacity == temp.Length
      ensures Contents() == old(temp[..oldSize]) + old(other.Contents())
      ensures other.Valid() && other.Contents() == old(other.Contents())
    {
      ghost var mine, theirs := temp[..oldSize], other.Contents();
      SetView(temp, oldSize + otherSize, temp.Length);
      CopyBytes(block, oldSize, other.Bytes(), otherSize + 1);
      JoinedBytes(block, oldSize, otherSize, mine, theirs);
    }

    method MoveToHeap(other: String, oldSize: nat, otherSize: nat)
      requires Valid() && other.Valid() && ApartFrom(other)
      requires IsOnStack() && oldSize == Size() && otherSize == other.Size() && oldSize + otherSize >= LEN
      modifies this, buf
      ensures Valid() && Contents() == old(Contents()) + old(other.Contents()) && !IsOnStack() && fresh(block)
      ensures ApartFrom(other) && other.Valid() && other.Contents() == old(other.Contents())
    {
      ghost var mine := Contents();
      var total := oldSize + otherSize;
      var temp := new Byte[total + 1];
      CopyBytes(temp, 0, buf, oldSize);
      assert temp[..oldSize] == mine;
      buf[LAST] := ON_HEAP;
      Adopt(temp, other, oldSize, otherSize);
    }

    method AppendInBlock(other: String, oldSize: nat, otherSize: nat)
      requires Valid() && other.Valid() && ApartFrom(other)
      requires !IsOnStack() && oldSize == Size() && otherSize == other.Size() && oldSize + otherSize < blockCapacity
      modifies this, buf, block
      ensures Valid() && Contents() == old(Contents()) + old(other.Contents()) && !IsOnStack() && block == old(block)
      ensures other.Valid() && other.Contents() == old(other.Contents())
    {
      ghost var mine, theirs := Contents(), other.Contents();
      SetView(block, oldSize + otherSize, blockCapacity);
      CopyBytes(block, oldSize, other.Bytes(), otherSize + 1);
      JoinedBytes(block, oldSize, otherSize, mine, theirs);
    }

    method Grow(other: String, oldSize: nat, otherSize: nat)
      requires Valid() && other.Valid() && ApartFrom(other)
      requires !IsOnStack() && oldSize == Size() && otherSize == other.Size() && oldSize + otherSize >= blockCapacity
      modifies this, buf
      ensures Valid() && Contents() == old(Contents()) + old(other.Contents()) && !IsOnStack() && fresh(block)
      ensures ApartFrom(other) && other.Valid() && other.Contents() == old(other.Contents())
      ensures blockCapacity > oldSize + otherSize && blockCapacity >= 2 * old(blockCapacity)
    {
      ghost var mine := Contents();
      var total := oldSize + otherSize;
      var capacity := blockCapacity * 2;
      if capacity <= total {
        capacity := total + 1;
      }
      var temp := new Byte[capacity];
      CopyBytes(temp, 0, block, oldSize);
      assert temp[..oldSize] == mine;
      Adopt(temp, other, oldSize, otherSize);
    }

    /** Move assignment: takes over all bytes, the view of a block included, and leaves
        the other string empty. */
    method MoveAssign(other: String)
      requires Valid() && other.Valid() && (this == other || ApartFrom(other))
      modifies this, buf, other, other.buf
      ensures Valid() && Contents() == old(other.Contents())
      ensures this != other ==> ApartFrom(other) && other.Valid() && other.Contents() == []
      ensures this != other ==> block == old(other.block) && other.block == null
    {
      if this != other {
        ghost var theirs := other.Contents();
        CopyBytes(buf, 0, other.buf, LEN);
        block, blockSize, blockCapacity := other.block, other.blockSize, other.blockCapacity;
        other.block := null;
        other.buf[0] := 0;
        other.buf[LAST] := LAST;
        assert Contents() == theirs;
      }
    }
  }

  /** operator+ copies the left operand and appends the right one. */
  method Concat(lhs: String, rhs: String) returns (r: String)
    requires lhs.Valid() && rhs.Valid()
    ensures r.Valid() && r.Contents() == lhs.Contents() + rhs.Contents()
    ensures fresh(r) && fresh(r.buf) && (r.block == null || fresh(r.block))
    ensures lhs.Valid() && lhs.Contents() == old(lhs.Contents())
    ensures rhs.Valid() && rhs.Contents() == old(rhs.Contents())
  {
    r := new String.CopyOf(lhs);
    r.Append(rhs);
  }
}

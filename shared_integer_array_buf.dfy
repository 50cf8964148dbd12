// SharedIntegerArrayBuf: a message buffer over a strided window of a shared
// int array, and the java.nio byte buffer it is copied to and from, seen as
// a sequence of 4-byte ints.
module SharedIntegerArrayBufs {
  import opened JavaLang

  /** What the buffer takes from an edu.rit.util.Range: its lower bound,
      stride and number of indices. */
  datatype IndexRange = IndexRange(lb: int, stride: int, length: int)

  /** The byte buffer seen one 4-byte int at a time: its slots, the slot at
      the position, and the bytes between position and limit. */
  class ByteBuffer {
    var slots: seq<int>
    var position: int
    var remaining: int

    ghost predicate Valid()
      reads this
    {
      0 <= position && 0 <= remaining && position + remaining / 4 <= |slots|
    }

    constructor (slots: seq<int>, remaining: int)
      requires 0 <= remaining && remaining / 4 <= |slots|
      ensures Valid() && this.slots == slots && position == 0 && this.remaining == remaining
    {
      this.slots := slots;
      position := 0;
      this.remaining := remaining;
    }

    /** putInt: x into the slot at the position, which moves past it. */
    method PutInt(x: int)
      requires Valid() && remaining >= 4
      modifies this
      ensures Valid() && slots == old(slots)[old(position) := x]
      ensures position == old(position) + 1 && remaining == old(remaining) - 4
    {
      slots := slots[position := x];
      position := position + 1;
      remaining := remaining - 4;
    }

    /** getInt: the slot at the position, which moves past it. */
    method GetInt() returns (x: int)
      requires Valid() && remaining >= 4
      modifies this
      ensures Valid() && slots == old(slots) && x == slots[old(position)]
      ensures position == old(position) + 1 && remaining == old(remaining) - 4
    {
      x := slots[position];
      position := position + 1;
      remaining := remaining - 4;
    }
  }

  /** Items sendItems moves from index i: all that are left, or as many as
      the remaining bytes hold. */
  function SendCount(length: int, i: int, remaining: int): int
  {
    if length - i < remaining / 4 then length - i else remaining / 4
  }

  /** Items receiveItems moves from index i: at most num, and no more than
      the buffer and the byte buffer hold; `i + num` is an int sum and
      wraps. */
  function ReceiveCount(length: int, i: int, num: int, remaining: int): int
  {
    var max := if IntWrap(i + num) < length then IntWrap(i + num) else length;
    if max <= i then 0
    else if max - i < remaining / 4 then max - i else remaining / 4
  }

  /** The send count is as large as it can be: every item from i on went, or
      fewer than four bytes are left. */
  lemma SendCountMaximal(length: int, i: int, remaining: int)
    requires 0 <= i <= length && 0 <= remaining
    ensures var n := SendCount(length, i, remaining);
      0 <= n && i + n <= length && 4 * n <= remaining &&
      (i + n == length || remaining - 4 * n < 4)
  {
  }

  /** The receive count is as large as it can be: num items, the end of the
      buffer, or fewer than four bytes left stopped it, unless `i + num`
      overflowed. */
  lemma ReceiveCountMaximal(length: int, i: int, num: int, remaining: int)
    requires 0 <= i <= length && 0 <= remaining && IsInt(num) && IsInt(length)
    ensures var n := ReceiveCount(length, i, num, remaining);
      0 <= n && n <= (if num < 0 then 0 else num) && i + n <= length && 4 * n <= remaining &&
      (n == num || i + n == length || remaining - 4 * n < 4 || num < 0 || !IsInt(i + num))
  {
  }

  /** From any index past 0, asking for up to Integer.MAX_VALUE items
      overflows `i + num` to a negative bound, and no item is received. */
  lemma ReceiveCountWraps(length: int, i: int, remaining: int)
    requires 0 < i <= length && IsInt(length)
    ensures !IsInt(i + INT_MAX) && ReceiveCount(length, i, INT_MAX, remaining) == 0
  {
  }

  /** i strides of length s, counted one stride at a time. */
  function Strided(i: int, s: int): int
    decreases if i < 0 then 0 else i
  {
    if i <= 0 then 0 else Strided(i - 1, s) + s
  }

  lemma {:induction false} StridedIsProduct(i: int, s: int)
    requires 0 <= i
    ensures Strided(i, s) == i * s
  {
    if i > 0 {
      StridedIsProduct(i - 1, s);
    }
  }

  lemma {:induction false} StridedGrows(i: int, j: int, s: int)
    requires 0 <= i < j && 1 <= s
    ensures Strided(i, s) < Strided(j, s)
    decreases j - i
  {
    if i < j - 1 {
      StridedGrows(i, j - 1, s);
    }
  }

  class SharedIntegerArrayBuf {
    const myArray: array<int>
    const myRange: IndexRange
    const myLength: int
    const myArrayOffset: int
    const myStride: int

    /** The window lies inside the array. */
    ghost predicate Valid()
    {
      1 <= myStride && 0 <= myLength && 0 <= myArrayOffset &&
      (0 < myLength ==> myArrayOffset + (myLength - 1) * myStride < myArray.Length)
    }

    constructor (theArray: array<int>, theRange: IndexRange)
      requires 1 <= theRange.stride && 0 <= theRange.length && 0 <= theRange.lb
      requires 0 < theRange.length ==> theRange.lb + (theRange.length - 1) * theRange.stride < theArray.Length
      ensures Valid() && myArray == theArray && myRange == theRange
      ensures myLength == theRange.length && myArrayOffset == theRange.lb && myStride == theRange.stride
    {
      myLength := theRange.length;
      myArray := theArray;
      myRange := theRange;
      myArrayOffset := theRange.lb;
      myStride := theRange.stride;
    }

    /** The array element behind item i (i >= 0). */
    function Pos(i: int): int
    {
      myArrayOffset + Strided(i, myStride)
    }

    lemma PosInRange(i: int)
      requires Valid() && 0 <= i < myLength
      ensures myArrayOffset <= Pos(i) < myArray.Length
    {
      StridedIsProduct(i, myStride);
      StridedIsProduct(myLength - 1, myStride);
      if i < myLength - 1 {
        StridedGrows(i, myLength - 1, myStride);
      }
    }

    /** Distinct items live in distinct elements. */
    lemma PosInjective(i: int, j: int)
      requires Valid() && i != j && 0 <= i && 0 <= j
      ensures Pos(i) != Pos(j)
    {
      if i < j {
        StridedGrows(i, j, myStride);
      } else {
        StridedGrows(j, i, myStride);
      }
    }

    /** get: item i of the buffer. */
    function Get(i: int): int
      requires Valid() && 0 <= i < myLength
      reads myArray
    {
      PosInRange(i);
      myArray[Pos(i)]
    }

    /** put: item i becomes x; no other item or element changes. */
    method Put(i: int, item: int)
      requires Valid() && 0 <= i < myLength
      modifies myArray
      ensures Get(i) == item
      ensures forall j :: 0 <= j < myLength && j != i ==> Get(j) == old(Get(j))
      ensures forall p :: 0 <= p < myArray.Length && p != Pos(i) ==> myArray[p] == old(myArray[p])
    {
      PosInRange(i);
      myArray[Pos(i)] := item;
      forall j | 0 <= j < myLength && j != i
        ensures Get(j) == old(Get(j))
      {
        PosInjective(i, j);
        PosInRange(j);
      }
    }

    /** sendItems: items from i on go to the byte buffer in index order until
        the items or the room run out; the shared array is only read. */
    method SendItems(i: int, buffer: ByteBuffer) returns (n: int)
      requires Valid() && buffer.Valid() && 0 <= i <= myLength
      modifies buffer
      ensures buffer.Valid()
      ensures n == SendCount(myLength, i, old(buffer.remaining))
      ensures buffer.position == old(buffer.position) + n && buffer.remaining == old(buffer.remaining) - 4 * n
      ensures |buffer.slots| == old(|buffer.slots|)
      ensures forall k :: i <= k < i + n ==> buffer.slots[old(buffer.position) + k - i] == Get(k)
      ensures forall q :: 0 <= q < |buffer.slots| && !(old(buffer.position) <= q < buffer.position) ==> buffer.slots[q] == old(buffer.slots[q])
      ensures myArray[..] == old(myArray[..])
    {
      var index := i;
      var off := myArrayOffset + i * myStride;
      StridedIsProduct(i, myStride);
      ghost var start := buffer.position;
      while index < myLength && buffer.remaining >= 4
        invariant i <= index <= myLength && off == Pos(index)
        invariant buffer.Valid() && |buffer.slots| == old(|buffer.slots|)
        invariant buffer.position == start + (index - i) && buffer.remaining == old(buffer.remaining) - 4 * (index - i)
        invariant forall k :: i <= k < index ==> buffer.slots[start + k - i] == Get(k)
        invariant forall q :: 0 <= q < |buffer.slots| && !(start <= q < buffer.position) ==> buffer.slots[q] == old(buffer.slots[q])
        decreases myLength - index
      {
        PosInRange(index);
        buffer.PutInt(myArray[off]);
        index := index + 1;
        off := off + myStride;
      }
      n := index - i;
    }

    /** receiveItems: up to num items from i on are taken from the byte
        buffer in order; only their elements change. */
    method ReceiveItems(i: int, num: int, buffer: ByteBuffer) returns (n: int)
      requires Valid() && buffer.Valid() && 0 <= i <= myLength
      modifies myArray, buffer
      ensures buffer.Valid() && buffer.slots == old(buffer.slots)
      ensures n == ReceiveCount(myLength, i, num, old(buffer.remaining))
      ensures buffer.position == old(buffer.position) + n && buffer.remaining == old(buffer.remaining) - 4 * n
      ensures forall k :: i <= k < i + n ==> Get(k) == buffer.slots[old(buffer.position) + k - i]
      ensures forall k :: 0 <= k < myLength && !(i <= k < i + n) ==> Get(k) == old(Get(k))
      ensures forall p :: 0 <= p < myArray.Length && (forall k :: i <= k < i + n ==> p != Pos(k)) ==>
        myArray[p] == old(myArray[p])
    {
      var index := i;
      var off := myArrayOffset + i * myStride;
      StridedIsProduct(i, myStride);
      var sum := IntWrap(i + num);
      var max := if sum < myLength then sum else myLength;
      ghost var start := buffer.position;
      while index < max && buffer.remaining >= 4
        invariant i <= index && (max <= i ==> index == i) && (i < max ==> index <= max) && off == Pos(index)
        invariant buffer.Valid() && buffer.slots == old(buffer.slots)
        invariant buffer.position == start + (index - i) && buffer.remaining == old(buffer.remaining) - 4 * (index - i)
        invariant forall k :: i <= k < index ==> Get(k) == buffer.slots[start + k - i]
        invariant forall k :: 0 <= k < myLength && !(i <= k < index) ==> Get(k) == old(Get(k))
        invariant forall p :: 0 <= p < myArray.Length && (forall k :: i <= k < index ==> p != Pos(k)) ==>
          myArray[p] == old(myArray[p])
        decreases max - index
      {
        PosInRange(index);
        var x := buffer.GetInt();
        label Step:
        myArray[off] := x;
        forall k | 0 <= k < myLength && k != index
          ensures Get(k) == old@Step(Get(k))
        {
          PosInjective(k, index);
          PosInRange(k);
        }
        index := index + 1;
        off := off + myStride;
      }
      n := index - i;
    }
  }
}

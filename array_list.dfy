/** alflib/collection/array_list.hpp: a growable list over one flat buffer, with an explicit
    element count (`size`) and allocated length (`capacity`). */
module ArrayLists {
  import opened Common
  import Math

  /** Capacity of a default-constructed list. */
  const DEFAULT_CAPACITY: nat := 10
  /** Factor by which a full list grows. */
  const RESIZE_FACTOR: nat := 2

  /** The capacity a list of capacity `capacity` grows to when it is full. */
  function GrownCapacity(capacity: nat): (c: nat)
    ensures c > capacity
    ensures capacity > 0 ==> c == RESIZE_FACTOR * capacity
    ensures capacity == 0 ==> c == DEFAULT_CAPACITY
  {
    if capacity != 0 then capacity * RESIZE_FACTOR else DEFAULT_CAPACITY
  }

  /** Iterations the shift loop of Prepend runs as written, from a given start value of its u64
      counter `i`: the loop runs while `i > 0` and increments `i`, so it only stops once the
      counter wraps around to 0. */
  function PrependShiftIterationsFrom(i: u64): nat
    decreases if i == 0 then 0 else U64_MODULUS - i
  {
    if i == 0 then 0 else 1 + PrependShiftIterationsFrom((i + 1) % U64_MODULUS)
  }

  /** As written, Prepend on a list of `size` elements starts its counter at `size - 1` (in u64
      arithmetic), so the loop shifts nothing for one element, runs once for none (writing in
      front of the buffer) and runs 2^64 - size + 1 times for two or more. With one element the
      new element is then placed at index 0 over the old one, the size becomes 2 and index 1 is
      never written. */
  lemma {:induction false} PrependShiftIterationsAsWritten(i: u64)
    ensures PrependShiftIterationsFrom(i) == if i == 0 then 0 else U64_MODULUS - i
    decreases if i == 0 then 0 else U64_MODULUS - i
  {
    if i != 0 {
      PrependShiftIterationsAsWritten((i + 1) % U64_MODULUS);
    }
  }

  /** Prepending to a list of two elements, as written, shifts 2^64 - 1 times. */
  lemma PrependOnTwoElementsNeverFinishes()
    ensures PrependShiftIterationsFrom((2 - 1) % U64_MODULUS) == U64_MODULUS - 1
  {
    PrependShiftIterationsAsWritten(1);
  }

  /** The element count an Append writes at, and the capacity it leaves, when the recorded
      capacity is `capacity` and the count `size`; the write is in bounds when the index is below
      the capacity that CheckCapacityToAdd leaves. */
  predicate AppendInBounds(capacity: nat, size: nat) {
    size < (if size >= capacity then GrownCapacity(capacity) else capacity)
  }

  /** After the as-written Resize(20) on a default list (capacity 10 stays recorded while 20
      elements are held), the next Append grows to 20 and writes element 20 past the end. */
  lemma StaleCapacityOverflowsOnAppend()
    ensures !AppendInBounds(DEFAULT_CAPACITY, 20)
  {}

  class ArrayList<T(==)> {
    /** The allocated storage: element i lives in buffer[i] for i < size. */
    var buffer: array<T>
    /** mCapacity: the number of elements the buffer has room for. */
    var capacity: nat
    /** mSize: the number of elements. */
    var size: nat
    /** The value `T{}` that default-constructed slots hold. */
    const blank: T

    ghost predicate Valid()
      reads this
    {
      buffer.Length == capacity && size <= capacity
    }

    /** The elements, in order. */
    function Contents(): (s: seq<T>)
      reads this, buffer
      requires Valid()
      ensures |s| == size
    {
      buffer[..size]
    }

    /** ArrayList(capacity): an empty list with room for `capacity` elements (default 10). */
    constructor WithCapacity(capacity: nat, blank: T)
      ensures Valid() && fresh(buffer)
      ensures Contents() == [] && this.capacity == capacity && this.blank == blank
    {
      buffer := new T[capacity](_ => blank);
      this.capacity := capacity;
      size := 0;
      this.blank := blank;
    }

    /** ArrayList(initializerList): size and capacity equal to the list's length, elements in
        list order. */
    constructor FromList(elements: seq<T>, blank: T)
      ensures Valid() && fresh(buffer)
      ensures Contents() == elements && capacity == |elements| && this.blank == blank
    {
      var b := new T[|elements|](_ => blank);
      var i := 0;
      while i < |elements|
        invariant 0 <= i <= |elements|
        invariant b[..i] == elements[..i]
      {
        b[i] := elements[i];
        i := i + 1;
      }
      buffer := b;
      capacity := |elements|;
      size := |elements|;
      this.blank := blank;
    }

    /** The copy constructor: a new buffer of the same capacity holding the same elements. */
    constructor Copy(other: ArrayList<T>)
      requires other.Valid()
      ensures Valid() && fresh(buffer)
      ensures Contents() == other.Contents() && capacity == other.capacity
      ensures blank == other.blank
    {
      var b := new T[other.capacity](_ => other.blank);
      var i := 0;
      while i < other.size
        invariant 0 <= i <= other.size
        invariant b[..i] == other.buffer[..i]
      {
        b[i] := other.buffer[i];
        i := i + 1;
      }
      buffer := b;
      capacity := other.capacity;
      size := other.size;
      blank := other.blank;
    }

    /** The move constructor: takes over the other list's buffer, capacity and size and leaves it
        empty with capacity 0 (its null buffer is an empty array here). */
    constructor Move(other: ArrayList<T>)
      requires other.Valid()
      modifies other
      ensures Valid() && other.Valid()
      ensures buffer == old(other.buffer) && Contents() == old(other.Contents())
      ensures capacity == old(other.capacity) && blank == other.blank
      ensures other.Contents() == [] && other.capacity == 0 && fresh(other.buffer)
    {
      buffer := other.buffer;
      capacity := other.capacity;
      size := other.size;
      blank := other.blank;
      new;
      other.buffer := new T[0];
      other.capacity := 0;
      other.size := 0;
    }

    /** Reserve(c): grows the buffer to `c` when `c` exceeds the capacity, moving the elements
        over; otherwise nothing changes. */
    method Reserve(c: nat)
      requires Valid()
      modifies this
      ensures Valid() && Contents() == old(Contents())
      ensures capacity == if c > old(capacity) then c else old(capacity)
      ensures c > old(capacity) ==> fresh(buffer)
      ensures c <= old(capacity) ==> buffer == old(buffer)
    {
      if c > capacity {
        var b := new T[c](_ => blank);
        var i := 0;
        while i < size
          modifies b
          invariant 0 <= i <= size
          invariant b[..i] == buffer[..i]
        {
          b[i] := buffer[i];
          i := i + 1;
        }
        buffer := b;
        capacity := c;
      }
    }

    /** CheckCapacityToAdd: a full list grows to twice its capacity, or to 10 from 0, so that
        there is room for one more element. */
    method CheckCapacityToAdd()
      requires Valid()
      modifies this
      ensures Valid() && Contents() == old(Contents()) && size < capacity
      ensures capacity == if old(size) >= old(capacity) then GrownCapacity(old(capacity)) else old(capacity)
      ensures AppendInBounds(old(capacity), old(size))
      ensures buffer == old(buffer) || fresh(buffer)
    {
      if size >= capacity {
        Reserve(GrownCapacity(capacity));
      }
    }

    /** Append(object): the elements followed by `object`. */
    method Append(x: T)
      requires Valid()
      modifies this, buffer
      ensures Valid() && Contents() == old(Contents()) + [x]
      ensures capacity == if old(size) >= old(capacity) then GrownCapacity(old(capacity)) else old(capacity)
      ensures buffer == old(buffer) || fresh(buffer)
    {
      CheckCapacityToAdd();
      buffer[size] := x;
      size := size + 1;
    }

    /** Prepend(object) with its shift loop counting down, as intended: `object` followed by the
        old elements. */
    method Prepend(x: T)
      requires Valid()
      modifies this, buffer
      ensures Valid() && Contents() == [x] + old(Contents())
      ensures capacity == if old(size) >= old(capacity) then GrownCapacity(old(capacity)) else old(capacity)
      ensures buffer == old(buffer) || fresh(buffer)
    {
      ghost var s := Contents();
      CheckCapacityToAdd();
      var i := size;
      while i > 0
        modifies buffer
        invariant 0 <= i <= size < capacity == buffer.Length
        invariant forall j :: 0 <= j < i ==> buffer[j] == s[j]
        invariant forall j :: i < j <= size ==> buffer[j] == s[j - 1]
      {
        buffer[i] := buffer[i - 1];
        i := i - 1;
      }
      buffer[0] := x;
      size := size + 1;
      assert Contents() == [x] + s;
    }

    /** Remove(index): deletes the element at `index`, moving the later ones down by one. */
    method RemoveAt(index: nat)
      requires Valid() && index < size
      modifies this, buffer
      ensures Valid() && buffer == old(buffer) && capacity == old(capacity)
      ensures Contents() == old(Contents())[..index] + old(Contents())[index + 1..]
    {
      ghost var s := Contents();
      var i := index;
      while i < size - 1
        modifies buffer
        invariant index <= i <= size - 1
        invariant forall j :: 0 <= j < index ==> buffer[j] == s[j]
        invariant forall j :: index <= j < i ==> buffer[j] == s[j + 1]
        invariant forall j :: i <= j < size ==> buffer[j] == s[j]
      {
        buffer[i] := buffer[i + 1];
        i := i + 1;
      }
      size := size - 1;
      assert Contents() == s[..index] + s[index + 1..];
    }

    /** Remove(object): deletes the first element equal to `object`; nothing changes when there
        is none. */
    method Remove(x: T)
      requires Valid()
      modifies this, buffer
      ensures Valid() && buffer == old(buffer) && capacity == old(capacity)
      ensures x !in old(Contents()) ==> Contents() == old(Contents())
      ensures x in old(Contents()) ==>
        var k := FirstIndexOf(old(Contents()), x);
        Contents() == old(Contents())[..k] + old(Contents())[k + 1..]
    {
      var i := 0;
      while i < size
        invariant 0 <= i <= size
        invariant x !in Contents()[..i]
      {
        if buffer[i] == x {
          assert FirstIndexOf(Contents(), x) == i by { FirstIndexIsFirst(Contents(), x, i); }
          RemoveAt(i);
          return;
        }
        i := i + 1;
      }
      assert Contents()[..size] == Contents();
    }

    /** Resize(n) as written: like Resize, except that when `n` is not below the capacity the
        new buffer of `n` elements is installed without updating the recorded capacity, so the
        list then holds more elements than its capacity says. */
    method ResizeAsWritten(n: nat)
      requires Valid()
      modifies this, buffer
      ensures size == n && capacity == old(capacity)
      ensures buffer.Length == if n < old(capacity) then old(capacity) else n
      ensures n > old(capacity) ==> capacity < size && !Valid()
      ensures buffer[..n] == ResizedContents(old(Contents()), n, blank)
    {
      ghost var s := Contents();
      if n < capacity {
        var i := size;
        while i < n
          modifies buffer
          invariant size <= i <= n || n <= size == i
          invariant buffer[..size] == s
          invariant forall j :: size <= j < i ==> buffer[j] == blank
        {
          buffer[i] := blank;
          i := i + 1;
        }
        size := n;
        assert buffer[..n] == ResizedContents(s, n, blank);
      } else {
        var b := new T[n](_ => blank);
        var i := 0;
        while i < Math.Min(size, n)
          modifies b
          invariant 0 <= i <= Math.Min(size, n)
          invariant b[..i] == s[..i]
          invariant forall j :: i <= j < n ==> b[j] == blank
        {
          b[i] := buffer[i];
          i := i + 1;
        }
        buffer := b;
        size := n;
        assert buffer[..n] == ResizedContents(s, n, blank);
      }
    }

    /** Resize(n) with the capacity kept in step: `n` elements, the first min(size, n) of them
        the old ones and the rest `T{}`. */
    method Resize(n: nat)
      requires Valid()
      modifies this, buffer
      ensures Valid() && size == n
      ensures Contents() == ResizedContents(old(Contents()), n, blank)
      ensures capacity == if n < old(capacity) then old(capacity) else n
      ensures buffer == old(buffer) || fresh(buffer)
    {
      ghost var s := Contents();
      if n < capacity {
        var i := size;
        while i < n
          modifies buffer
          invariant size <= i <= n || n <= size == i
          invariant buffer[..size] == s
          invariant forall j :: size <= j < i ==> buffer[j] == blank
        {
          buffer[i] := blank;
          i := i + 1;
        }
        size := n;
        assert Contents() == ResizedContents(s, n, blank);
      } else {
        var b := new T[n](_ => blank);
        var i := 0;
        while i < Math.Min(size, n)
          modifies b
          invariant 0 <= i <= Math.Min(size, n)
          invariant b[..i] == s[..i]
          invariant forall j :: i <= j < n ==> b[j] == blank
        {
          b[i] := buffer[i];
          i := i + 1;
        }
        buffer := b;
        capacity := n;
        size := n;
        assert Contents() == ResizedContents(s, n, blank);
      }
    }

    /** Shrink(c): when `c` is below the capacity, moves the first min(size, c) elements to a
        buffer of `c`; otherwise nothing changes. */
    method Shrink(c: nat)
      requires Valid()
      modifies this
      ensures Valid()
      ensures c < old(capacity) ==> capacity == c && size == Math.Min(old(size), c) && fresh(buffer)
      ensures c < old(capacity) ==> Contents() == old(Contents())[..Math.Min(old(size), c)]
      ensures c >= old(capacity) ==>
        capacity == old(capacity) && buffer == old(buffer) && Contents() == old(Contents())
    {
      if c < capacity {
        var b := new T[c](_ => blank);
        var m := Math.Min(size, c);
        var i := 0;
        while i < m
          modifies b
          invariant 0 <= i <= m
          invariant b[..i] == buffer[..i]
        {
          b[i] := buffer[i];
          i := i + 1;
        }
        buffer := b;
        capacity := c;
        size := m;
      }
    }

    /** ShrinkToFit: Shrink(size), after which the capacity equals the size. */
    method ShrinkToFit()
      requires Valid()
      modifies this
      ensures Valid() && Contents() == old(Contents()) && capacity == size
    {
      Shrink(size);
    }

    /** Contains(object): whether some element equals `object`. */
    method Contains(x: T) returns (found: bool)
      requires Valid()
      ensures found <==> x in Contents()
    {
      var i := 0;
      while i < size
        invariant 0 <= i <= size
        invariant x !in Contents()[..i]
      {
        if At(i) == x {
          return true;
        }
        i := i + 1;
      }
      assert Contents()[..size] == Contents();
      return false;
    }

    /** At(index), also operator[]: the element at `index < size`. */
    function At(index: nat): (x: T)
      reads this, buffer
      requires Valid() && index < size
      ensures x == Contents()[index]
    {
      buffer[index]
    }

    /** Assignment through operator[]: replaces the element at `index`. */
    method Set(index: nat, x: T)
      requires Valid() && index < size
      modifies buffer
      ensures Valid() && Contents() == old(Contents())[index := x]
    {
      buffer[index] := x;
    }
  }

  /** The elements after Resize(n): the first min(|s|, n) old ones, then `blank` up to `n`. */
  function ResizedContents<T>(s: seq<T>, n: nat, blank: T): (r: seq<T>)
    ensures |r| == n
    ensures forall i :: 0 <= i < n ==> r[i] == if i < |s| then s[i] else blank
  {
    if n <= |s| then s[..n] else s + seq(n - |s|, _ => blank)
  }

  /** The position of the first occurrence of `x` in `s`. */
  function FirstIndexOf<T(==)>(s: seq<T>, x: T): (k: nat)
    requires x in s
    ensures k < |s| && s[k] == x && x !in s[..k]
  {
    if s[0] == x then 0 else
      assert x in s[1..];
      var k := 1 + FirstIndexOf(s[1..], x);
      assert s[..k] == [s[0]] + s[1..][..k - 1];
      k
  }

  lemma FirstIndexIsFirst<T>(s: seq<T>, x: T, i: nat)
    requires i < |s| && s[i] == x && x !in s[..i]
    ensures FirstIndexOf(s, x) == i
  {
  }
}

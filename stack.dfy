// A stack of 8-bit integers in a growable array. `top` is the index of the
// top element (-1 when empty) and `arraySize` the capacity; both are int8 in
// the source, so the capacity can double only while it stays below 128.
module ArrayStack {

  newtype int8 = x: int | -128 <= x < 128

  class Stack {
    var arraySize: int8
    var top: int8
    var values: array<int8>

    ghost predicate Valid()
      reads this
    {
      -1 <= top < arraySize && values.Length == arraySize as int
    }

    /** The stacked values, bottom first; the last one is the top. */
    ghost function Contents(): seq<int8>
      reads this, values
      requires Valid()
    {
      values[..top + 1]
    }

    /** `NewStack()`: an empty stack of capacity 10. */
    constructor ()
      ensures Valid() && fresh(values)
      ensures arraySize == 10 && top == -1 && Contents() == []
    {
      arraySize := 10;
      top := -1;
      values := new int8[10](_ => 0);
    }

    /** `NewStackWith(size)`: an empty stack of capacity `size`. */
    constructor With(size: int8)
      requires size >= 0
      ensures Valid() && fresh(values)
      ensures arraySize == size && top == -1 && Contents() == []
    {
      arraySize := size;
      top := -1;
      values := new int8[size](_ => 0);
    }

    /** The capacity, which is not the number of stored elements. */
    function Length(): (n: int8)
      reads this
      requires Valid()
      ensures n as int == values.Length && n as int >= top as int + 1
    {
      arraySize
    }

    /** Doubles the capacity, copying every slot of the old array. */
    method Resize()
      requires Valid() && arraySize <= 63
      modifies this
      ensures Valid() && fresh(values)
      ensures arraySize == 2 * old(arraySize) && top == old(top)
      ensures values[..old(arraySize)] == old(values[..])
      ensures forall i :: old(arraySize) as int <= i < values.Length ==> values[i] == 0
      ensures Contents() == old(Contents())
    {
      var newArraySize := arraySize * 2;
      var newValues := new int8[newArraySize](_ => 0);
      forall i | 0 <= i < values.Length {
        newValues[i] := values[i];
      }
      values := newValues;
      arraySize := newArraySize;
    }

    /** Pushes `value`, first doubling the capacity when the array is full. */
    method Push(value: int8)
      requires Valid()
      requires top as int + 1 >= arraySize as int ==> 0 < arraySize <= 63
      modifies this, values
      ensures Valid() && top == old(top) + 1
      ensures Contents() == old(Contents()) + [value]
      ensures arraySize == if old(top) as int + 1 >= old(arraySize) as int then 2 * old(arraySize) else old(arraySize)
      ensures old(top) as int + 1 < old(arraySize) as int ==> values == old(values)
      ensures old(top) as int + 1 >= old(arraySize) as int ==> fresh(values)
    {
      if top + 1 >= arraySize {
        Resize();
      }
      top := top + 1;
      values[top] := value;
    }

    /** Pops the top value; an empty stack yields -1 and is left as it is. */
    method Pop() returns (result: int8)
      requires Valid()
      modifies this
      ensures Valid() && values == old(values) && arraySize == old(arraySize)
      ensures old(top) == -1 ==> result == -1 && top == -1
      ensures old(top) > -1 ==>
                result == old(Contents())[old(top)] && top == old(top) - 1 && Contents() == old(Contents())[..old(top)]
    {
      result := -1;
      if top > -1 {
        result := values[top];
        top := top - 1;
      }
    }
  }

  /**
   * A stack of capacity 2 keeps its capacity while two values are pushed
   * and doubles it on the third push.
   */
  method PushPastCapacity() returns (before: int8, after: int8)
    ensures before == 2 && after == 4
  {
    var s := new Stack.With(2);
    s.Push(1);
    s.Push(2);
    before := s.Length();
    s.Push(1);
    after := s.Length();
  }

  /** Three pushes come back in reverse order, then an empty stack yields -1. */
  method PopInReverse() returns (a: int8, b: int8, c: int8, d: int8)
    ensures a == 3 && b == 2 && c == 1 && d == -1
  {
    var s := new Stack();
    s.Push(1);
    s.Push(2);
    s.Push(3);
    a := s.Pop();
    b := s.Pop();
    c := s.Pop();
    d := s.Pop();
  }
}

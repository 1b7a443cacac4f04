/** `sus::mem::replace(dest, value)`: stores `value` into the location
    `dest` and returns the value `dest` held before. A type that is
    relocated by memcpy has its bytes copied, outside of constant
    evaluation; any other type, and every type during constant evaluation,
    goes through one move-construction (of the old value out of `dest`) and
    one move-assignment (of `value` into `dest`). */
module MemReplace {

  /** A location holding a value of type T. */
  class Cell<T> {
    var value: T

    constructor(v: T)
      ensures value == v
    {
      value := v;
    }
  }

  /** `replace` for a type whose moves are plain copies (such as `int`):
      dest then holds v, and the old content is returned. */
  method Replace<T>(dest: Cell<T>, v: T) returns (previous: T)
    modifies dest
    ensures dest.value == v
    ensures previous == old(dest.value)
  {
    previous := dest.value;
    dest.value := v;
  }

  /** The struct of the examples: a number and a count of the
      move-assignments it has received. */
  class Counted {
    var num: int
    var assigns: int

    /** `S(int n)`. */
    constructor(n: int)
      ensures num == n && assigns == 0
    {
      num := n;
      assigns := 0;
    }

    /** The move constructor `S(S&& other)`: copies both fields. */
    constructor Moved(other: Counted)
      ensures num == other.num && assigns == other.assigns
    {
      num := other.num;
      assigns := other.assigns;
    }

    /** The move assignment `operator=(S&& other)`: takes the number and
        one more than the count of `other`. */
    method MoveAssign(other: Counted)
      modifies this
      ensures num == old(other.num) && assigns == old(other.assigns) + 1
    {
      var n, a := other.num, other.assigns;
      num := n;
      assigns := a + 1;
    }
  }

  /** Whether `replace` copies bytes: only for a type relocatable by
      memcpy, and never during constant evaluation. */
  predicate ByMemcpy(relocatableByMemcpy: bool, constantEvaluated: bool)
  {
    relocatableByMemcpy && !constantEvaluated
  }

  /** `replace` on the struct of the examples. `value` is the by-value
      parameter, a separate object from `dest`. On the memcpy path `dest`
      takes the fields of `value` as they are; on the move path it receives
      one move-assignment, which adds one to its count. Either way the
      returned object holds what `dest` held. */
  method ReplaceCounted(dest: Counted, value: Counted,
                        relocatableByMemcpy: bool, constantEvaluated: bool)
    returns (previous: Counted)
    requires dest != value
    modifies dest
    ensures fresh(previous)
    ensures previous.num == old(dest.num) && previous.assigns == old(dest.assigns)
    ensures dest.num == value.num
    ensures dest.assigns == value.assigns
                            + (if ByMemcpy(relocatableByMemcpy, constantEvaluated) then 0 else 1)
    ensures value.num == old(value.num) && value.assigns == old(value.assigns)
  {
    if ByMemcpy(relocatableByMemcpy, constantEvaluated) {
      // The bytes of dest go to a fresh object, then those of value to dest.
      previous := new Counted(dest.num);
      previous.assigns := dest.assigns;
      dest.num, dest.assigns := value.num, value.assigns;
    } else {
      previous := new Counted.Moved(dest);
      dest.MoveAssign(value);
    }
  }

  /** `replace(i, 5)` on an `int` holding 2: i becomes 5 and 2 comes back. */
  method ReplaceIntExample() returns (i: int, j: int)
    ensures i == 5 && j == 2
  {
    var cell := new Cell(2);
    j := Replace(cell, 5);
    i := cell.value;
  }

  /** `replace(i, S(5))` on `S i(2)`: i holds 5, the result holds 2, and
      i has been move-assigned once unless the memcpy path was taken. */
  method ReplaceCountedExample(relocatableByMemcpy: bool, constantEvaluated: bool)
    returns (iNum: int, jNum: int, iAssigns: int)
    ensures iNum == 5 && jNum == 2
    ensures iAssigns == if relocatableByMemcpy && !constantEvaluated then 0 else 1
    ensures constantEvaluated ==> iAssigns == 1
  {
    var i := new Counted(2);
    var five := new Counted(5);
    var j := ReplaceCounted(i, five, relocatableByMemcpy, constantEvaluated);
    iNum, jNum, iAssigns := i.num, j.num, i.assigns;
  }
}

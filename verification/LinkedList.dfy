/** The doubly linked list of list.c:75-181. */
module LinkedList {
  import opened Bytes

  datatype Status = Ok | NullValue

  class ListElem<V> {
    var prev: ListElem?<V>
    var next: ListElem?<V>
    var value: V

    /** list_elem_new. */
    constructor (value: V)
      ensures this.value == value && prev == null && next == null
    {
      this.value := value;
      prev, next := null, null;
    }
  }

  /** Calling `call` on the values one after the other, from the first on. */
  function Fold<V, A>(call: (V, A) -> A, values: seq<V>, acc: A): A {
    if values == [] then acc else Fold(call, values[1..], call(values[0], acc))
  }

  /** The sequence without its element at `j`. */
  function Without<T>(s: seq<T>, j: nat): (r: seq<T>)
    requires j < |s|
    ensures |r| == |s| - 1
    ensures forall i :: 0 <= i < |r| ==> r[i] == s[if i < j then i else i + 1]
  {
    s[..j] + s[j + 1..]
  }

  class List<V> {
    var head: ListElem?<V>
    var tail: ListElem?<V>
    var len: nat
    ghost var elems: seq<ListElem<V>>

    /** The chain of `next` from head and the chain of `prev` from tail are both `elems`. */
    ghost predicate Valid()
      reads this, elems
    {
      && len == |elems|
      && (|elems| == 0 ==> head == null && tail == null)
      && (|elems| > 0 ==>
            && head == elems[0] && elems[0].prev == null
            && tail == elems[|elems| - 1] && elems[|elems| - 1].next == null)
      && (forall i {:trigger elems[i].next} :: 0 <= i < |elems| - 1 ==> elems[i].next == elems[i + 1])
      && (forall i {:trigger elems[i].prev} :: 1 <= i < |elems| ==> elems[i].prev == elems[i - 1])
      && (forall i, j :: 0 <= i < j < |elems| ==> elems[i] != elems[j])
    }

    /** The element at a position, NULL behind the last. */
    ghost function At(i: nat): ListElem?<V>
      reads this
    {
      if i < |elems| then elems[i] else null
    }

    /** The sequence the list stands for. */
    ghost function Values(): (values: seq<V>)
      reads this, elems
      ensures |values| == |elems|
    {
      seq(|elems|, i requires 0 <= i < |elems| reads this, elems => elems[i].value)
    }

    /** list_new. */
    constructor ()
      ensures Valid() && elems == [] && Values() == []
    {
      head, tail, len, elems := null, null, 0, [];
    }

    /** list_add; None stands for a NULL value. */
    method Add(value: Option<V>) returns (code: Status)
      requires Valid()
      modifies this, elems
      ensures Valid()
      ensures code == if value.None? then NullValue else Ok
      ensures Values() == if value.None? then old(Values()) else old(Values()) + [value.value]
      ensures forall e :: e in elems ==> e in old(elems) || fresh(e)
    {
      if value.None? {
        return NullValue;
      }
      var elem := new ListElem(value.value);
      if len == 0 {
        head, tail := elem, elem;
      } else {
        elem.prev := tail;
        tail.next := elem;
        tail := elem;
      }
      elems := elems + [elem];
      len := len + 1;
      return Ok;
    }

    /** list_get_elem: None stands for NULL. */
    method GetElem(idx: nat) returns (elem: ListElem?<V>)
      requires Valid()
      ensures elem == At(idx)
    {
      if idx >= len {
        return null;
      }
      var curr := head;
      for i := 0 to idx
        invariant curr == At(i)
      {
        curr := curr.next;
      }
      return curr;
    }

    /** list_get. */
    method Get(idx: nat) returns (value: Option<V>)
      requires Valid()
      ensures value == if idx < |Values()| then Some(Values()[idx]) else None
    {
      var elem := GetElem(idx);
      value := if elem == null then None else Some(elem.value);
    }

    /** The two assignments of list_remove_elem: relink the neighbours, or head and tail. */
    method Unlink(elem: ListElem<V>, ghost k: nat)
      requires Valid() && k < |elems| && elems[k] == elem
      modifies this, elems
      ensures Valid() && elems == Without(old(elems), k)
      ensures forall e :: e in old(elems) ==> e.value == old(e.value)
    {
      hide Without;
      if elem.prev != null {
        elem.prev.next := elem.next;
      } else {
        head := elem.next;
      }
      if elem.next != null {
        elem.next.prev := elem.prev;
      } else {
        tail := elem.prev;
      }
      elems := Without(elems, k);
      len := len - 1;
    }

    /** list_remove_elem. */
    method RemoveElem(elem: ListElem<V>, ghost k: nat)
      requires Valid() && k < |elems| && elems[k] == elem
      modifies this, elems
      ensures Valid() && elems == Without(old(elems), k)
      ensures Values() == Without(old(Values()), k)
    {
      hide Without;
      ghost var values := Values();
      Unlink(elem, k);
      assert forall i :: 0 <= i < |elems| ==> Values()[i] == Without(values, k)[i];
    }

    /** list_remove, for an index inside the list. */
    method Remove(idx: nat)
      requires Valid() && idx < len
      modifies this, elems
      ensures Valid()
      ensures Values() == Without(old(Values()), idx)
      ensures forall e :: e in elems ==> e in old(elems)
    {
      var elem := GetElem(idx);
      RemoveElem(elem, idx);
    }

    /** list_enum. */
    method Enum<A>(call: (V, A) -> A, obj: A) returns (result: A)
      requires Valid()
      ensures result == Fold(call, Values(), obj)
    {
      var curr := head;
      result := obj;
      assert Values()[0..] == Values();
      for idx := 0 to len
        invariant curr == At(idx)
        invariant Fold(call, Values(), obj) == Fold(call, Values()[idx..], result)
      {
        assert Values()[idx..][1..] == Values()[idx + 1..];
        result := call(curr.value, result);
        curr := curr.next;
      }
      assert Values()[len..] == [];
    }
  }

  // ----- Any sequence of operations

  datatype Op<V> = AddOp(value: Option<V>) | RemoveOp(idx: nat)

  /** What one call does to the sequence. */
  function Apply<V>(values: seq<V>, op: Op<V>): seq<V>
    requires op.RemoveOp? ==> op.idx < |values|
  {
    match op
    case AddOp(None) => values
    case AddOp(Some(v)) => values + [v]
    case RemoveOp(i) => Without(values, i)
  }

  /** Every removal is of an index inside the list at that point. */
  predicate InRange<V>(values: seq<V>, ops: seq<Op<V>>)
    decreases |ops|
  {
    ops == [] ||
    ((ops[0].RemoveOp? ==> ops[0].idx < |values|) && InRange(Apply(values, ops[0]), ops[1..]))
  }

  function Run<V>(values: seq<V>, ops: seq<Op<V>>): seq<V>
    requires InRange(values, ops)
    decreases |ops|
  {
    if ops == [] then values else Run(Apply(values, ops[0]), ops[1..])
  }

  /** After any sequence of calls the linked structure stands for the sequence the calls describe. */
  method RunOps<V>(list: List<V>, ops: seq<Op<V>>)
    requires list.Valid() && InRange(list.Values(), ops)
    modifies list, list.elems
    ensures list.Valid() && list.Values() == Run(old(list.Values()), ops)
    ensures forall e :: e in list.elems ==> e in old(list.elems) || fresh(e)
    decreases |ops|
  {
    if ops != [] {
      match ops[0] {
        case AddOp(value) => var code := list.Add(value);
        case RemoveOp(idx) => list.Remove(idx);
      }
      assert forall i :: 0 <= i < |list.elems| ==> list.elems[i] in list.elems;
      RunOps(list, ops[1..]);
    }
  }
}

/** The memory-efficient variant's growable array: a three-word header
  * (capacity, length, stride) in front of `capacity` element slots, of which
  * the first `length` are in use. */
module DynamicArray {
  import opened Outcome

  const CAPACITY_FIELD: nat := 0
  const LENGTH_FIELD: nat := 1
  const STRIDE_FIELD: nat := 2
  const HEADER_FIELDS: nat := 3

  /** The capacity `resizeArray` sets, as written: the old one times 1.5,
    * truncated to an integer. */
  function GrownCapacityAsWritten(capacity: nat): nat
  {
    capacity * 3 / 2
  }

  /** As written, an array of capacity 0 or 1 does not grow, so the element
    * `_darrayAdd` then copies to slot `length == capacity` lies past the
    * allocation. */
  lemma GrowthStallsAsWritten(capacity: nat)
    requires capacity < 2
    ensures GrownCapacityAsWritten(capacity) == capacity
  {
  }

  /** The capacity a resize evidently means to reach: strictly more room,
    * the same factor of 1.5 from capacity 2 on. */
  function GrownCapacity(capacity: nat): (r: nat)
    ensures r > capacity
    ensures capacity >= 2 ==> r == GrownCapacityAsWritten(capacity)
  {
    if capacity < 2 then capacity + 1 else capacity * 3 / 2
  }

  class DArray<T> {
    /** The header words, indexed by the field constants above. */
    var header: seq<nat>
    /** The element slots after the header. */
    var slots: seq<T>
    /** What a slot holds before anything is copied into it. */
    const blank: T

    ghost predicate Valid()
      reads this
    {
      |header| == HEADER_FIELDS && header[LENGTH_FIELD] <= header[CAPACITY_FIELD] == |slots|
    }

    function Capacity(): nat
      reads this
      requires |header| == HEADER_FIELDS
    {
      header[CAPACITY_FIELD]
    }

    function Length(): nat
      reads this
      requires |header| == HEADER_FIELDS
    {
      header[LENGTH_FIELD]
    }

    function Stride(): nat
      reads this
      requires |header| == HEADER_FIELDS
    {
      header[STRIDE_FIELD]
    }

    /** The elements in use. */
    function Elements(): seq<T>
      reads this
      requires Valid()
    {
      slots[..Length()]
    }

    constructor Create(capacity: nat, stride: nat, blank: T)
      ensures Valid() && Capacity() == capacity && Stride() == stride
      ensures Elements() == []
      ensures this.blank == blank
    {
      header := [capacity, 0, stride];
      slots := seq(capacity, _ => blank);
      this.blank := blank;
    }

    /** `_darrayGetField`: reads one header word. */
    function GetField(field: nat): (r: nat)
      reads this
      requires field < |header|
      ensures Valid() && field == CAPACITY_FIELD ==> r == |slots|
      ensures Valid() && field == LENGTH_FIELD ==> r <= |slots|
    {
      header[field]
    }

    /** `darraySetField`: overwrites one header word and nothing else. */
    method SetField(field: nat, value: nat)
      requires field < |header|
      modifies this
      ensures header == old(header)[field := value]
      ensures slots == old(slots)
    {
      header := header[field := value];
    }

    /** `darrayClear`: forgets the elements, keeps the allocation. */
    method Clear()
      requires Valid()
      modifies this
      ensures Valid() && Elements() == []
      ensures Capacity() == old(Capacity()) && Stride() == old(Stride())
      ensures slots == old(slots)
    {
      SetField(LENGTH_FIELD, 0);
    }

    /** `resizeArray`: reallocates with a larger capacity; the elements in
      * use are kept, the new slots are blank. */
    method Resize()
      requires Valid()
      modifies this
      ensures Valid() && Elements() == old(Elements())
      ensures Capacity() == GrownCapacity(old(Capacity()))
      ensures Length() == old(Length()) && Stride() == old(Stride())
    {
      var capacity := GrownCapacity(Capacity());
      slots := slots + seq(capacity - |slots|, _ => blank);
      SetField(CAPACITY_FIELD, capacity);
    }

    /** `_darrayAdd`: appends one element, growing first when full. */
    method Add(elem: T)
      requires Valid()
      modifies this
      ensures Valid() && Elements() == old(Elements()) + [elem]
      ensures Capacity() == if old(Length()) >= old(Capacity()) then GrownCapacity(old(Capacity())) else old(Capacity())
      ensures Stride() == old(Stride())
    {
      var length := Length();
      if length >= Capacity() {
        Resize();
      }
      slots := slots[length := elem];
      SetField(LENGTH_FIELD, length + 1);
    }

    /** `_darrayInsert`: puts `elem` at `index`, moving the later elements up
      * by one. */
    method Insert(elem: T, index: nat)
      requires Valid() && index <= Length()
      modifies this
      ensures Valid() && Elements() == old(Elements())[..index] + [elem] + old(Elements())[index..]
      ensures Stride() == old(Stride())
      ensures Capacity() == if old(Length()) >= old(Capacity()) then GrownCapacity(old(Capacity())) else old(Capacity())
    {
      var length := Length();
      if index == length {
        Add(elem);
        return;
      }
      if length >= Capacity() {
        Resize();
      }
      ghost var before := Elements();
      slots := slots[..index] + [elem] + slots[index..length] + slots[length + 1..];
      SetField(LENGTH_FIELD, length + 1);
      assert Elements() == before[..index] + [elem] + before[index..];
    }

    /** An element store `darray[index] = elem` into an allocated slot. */
    method Put(index: nat, elem: T)
      requires Valid() && index < Capacity()
      modifies this
      ensures Valid() && header == old(header)
      ensures slots == old(slots)[index := elem]
    {
      slots := slots[index := elem];
    }

    /** `darraySet`: overwrites an element in use; an index past the end
      * aborts with exit code 4 and changes nothing. */
    method Set(elem: T, index: nat) returns (status: Result<()>)
      requires Valid()
      modifies this
      ensures Valid() && header == old(header)
      ensures index >= old(Length()) ==> status == Abort(BOUNDS_ERROR) && slots == old(slots)
      ensures index < old(Length()) ==> status == Ok(()) && Elements() == old(Elements())[index := elem]
    {
      if index >= Length() {
        return Abort(BOUNDS_ERROR);
      }
      Put(index, elem);
      status := Ok(());
    }

    /** `darraySetOrAdd` as written: at `index == length` it appends its own
      * uninitialised local `holder` instead of `elem`. */
    method SetOrAddAsWritten(elem: T, index: nat, holder: T) returns (status: Result<()>)
      requires Valid()
      modifies this
      ensures Valid() && Stride() == old(Stride())
      ensures index > old(Length()) ==> status == Abort(BOUNDS_ERROR) && Elements() == old(Elements())
      ensures index == old(Length()) ==> status == Ok(()) && Elements() == old(Elements()) + [holder]
      ensures index < old(Length()) ==> status == Ok(()) && Elements() == old(Elements())[index := elem]
      ensures index == old(Length()) ==> Capacity() == if old(Length()) >= old(Capacity()) then GrownCapacity(old(Capacity())) else old(Capacity())
      ensures index != old(Length()) ==> Capacity() == old(Capacity())
    {
      var length := Length();
      if index > length {
        return Abort(BOUNDS_ERROR);
      } else if index == length {
        Add(holder);
      } else {
        Put(index, elem);
      }
      status := Ok(());
    }

    /** `darraySetOrAdd` as intended: `elem` ends up at `index` whether that
      * overwrites an element or appends one. */
    method SetOrAdd(elem: T, index: nat) returns (status: Result<()>)
      requires Valid()
      modifies this
      ensures Valid() && Stride() == old(Stride())
      ensures index > old(Length()) ==> status == Abort(BOUNDS_ERROR) && Elements() == old(Elements())
      ensures index <= old(Length()) ==> status == Ok(()) && |Elements()| == |old(Elements())| + (if index == old(Length()) then 1 else 0)
      ensures index <= old(Length()) ==> Elements()[index] == elem
      ensures forall k :: 0 <= k < |old(Elements())| && k != index ==> Elements()[k] == old(Elements())[k]
      ensures index == old(Length()) ==> Capacity() == if old(Length()) >= old(Capacity()) then GrownCapacity(old(Capacity())) else old(Capacity())
      ensures index != old(Length()) ==> Capacity() == old(Capacity())
    {
      var length := Length();
      if index > length {
        return Abort(BOUNDS_ERROR);
      } else if index == length {
        Add(elem);
      } else {
        Put(index, elem);
      }
      status := Ok(());
    }
  }

  /** Asked to put 7 at index 0 of an empty array whose `holder` happens to
    * hold 0, the as-written set-or-add leaves 0 in slot 0. */
  method SetOrAddLosesElement() returns (stored: nat)
    ensures stored == 0 && stored != 7
  {
    var d := new DArray<nat>.Create(4, 8, 0);
    var status := d.SetOrAddAsWritten(7, 0, 0);
    stored := d.Elements()[0];
  }

  /** The intended set-or-add stores 7 in the same situation. */
  method SetOrAddKeepsElement() returns (stored: nat)
    ensures stored == 7
  {
    var d := new DArray<nat>.Create(4, 8, 0);
    var status := d.SetOrAdd(7, 0);
    stored := d.Elements()[0];
  }
}

/** The value model: `Data` with its three kinds `DataValue`, `DataList` and
    `DataMap`, the handle `data_ptr` and the dictionary `data_map`.

    A value is a Dafny datatype: rendering never changes the contents of a
    value, it only rebinds keys of the top-level dictionary, which is the one
    object the model keeps as a class (`Context`). */
module Data {
  import opened Failures

  datatype Value =
    | Scalar(text: string)                  // DataValue
    | List(items: seq<Value>)               // DataList
    | Map(entries: map<string, Value>)      // DataMap

  /** `getvalue`: the text of a string value; any other kind throws. */
  function GetValue(v: Value): (r: Result<string>)
    ensures r.Ok? <==> v.Scalar?
    ensures r.Ok? ==> r.value == v.text
    ensures r.Err? ==> r.error == NotAValue
  {
    if v.Scalar? then Ok(v.text) else Err(NotAValue)
  }

  /** `getlist`: the items of a list value; any other kind throws. */
  function GetList(v: Value): (r: Result<seq<Value>>)
    ensures r.Ok? <==> v.List?
    ensures r.Ok? ==> r.value == v.items
    ensures r.Err? ==> r.error == NotAList
  {
    if v.List? then Ok(v.items) else Err(NotAList)
  }

  /** `getmap`: the entries of a dictionary value; any other kind throws. */
  function GetMap(v: Value): (r: Result<map<string, Value>>)
    ensures r.Ok? <==> v.Map?
    ensures r.Ok? ==> r.value == v.entries
    ensures r.Err? ==> r.error == NotADictionary
  {
    if v.Map? then Ok(v.entries) else Err(NotADictionary)
  }

  /** Exactly one of the three accessors succeeds on any value. */
  lemma OneAccessorSucceeds(v: Value)
    ensures GetValue(v).Ok? || GetList(v).Ok? || GetMap(v).Ok?
    ensures !(GetValue(v).Ok? && GetList(v).Ok?)
    ensures !(GetValue(v).Ok? && GetMap(v).Ok?)
    ensures !(GetList(v).Ok? && GetMap(v).Ok?)
  {
  }

  /** `empty()`: the text is empty, or the list or dictionary has no entries. */
  predicate IsEmpty(v: Value) {
    match v
    case Scalar(text) => |text| == 0
    case List(items) => |items| == 0
    case Map(entries) => |entries| == 0
  }

  /** `empty()` of each kind, stated through the accessor that kind answers: a
      string with no characters, a list with no items, a dictionary with no keys. */
  lemma EmptyByKind(v: Value)
    ensures GetValue(v).Ok? ==> (IsEmpty(v) <==> GetValue(v).value == "")
    ensures GetList(v).Ok? ==> (IsEmpty(v) <==> GetList(v).value == [])
    ensures GetMap(v).Ok? ==> (IsEmpty(v) <==> GetMap(v).value == map[])
  {
    if v.Map? && |v.entries| == 0 {
      assert v.entries.Keys == {};
    }
  }

  /** What `emplace_back` leaves in a handle: a null handle (`None`) first becomes
      an empty list; a list gets `item` at its end; any other kind throws. */
  function Appended(handle: Option<Value>, item: Value): (r: Result<Value>)
    ensures r.Ok? <==> handle.None? || handle.value.List?
    ensures r.Err? ==> r.error == NotAList
    ensures r.Ok? ==> r.value.List? && |r.value.items| >= 1
    ensures r.Ok? ==> r.value.items[|r.value.items| - 1] == item
    ensures r.Ok? && handle.None? ==> r.value.items == [item]
    ensures r.Ok? && handle.Some? ==> r.value.items[..|r.value.items| - 1] == handle.value.items
  {
    var list := if handle.None? then List([]) else handle.value;
    match GetList(list)
    case Err(e) => Err(e)
    case Ok(items) => Ok(List(items + [item]))
  }

  /** Appending `items` one by one with `emplace_back`, stopping at the first
      exception: the handle as the last append leaves it. */
  function AppendAll(handle: Option<Value>, items: seq<Value>): Result<Option<Value>>
    decreases |items|
  {
    if items == [] then Ok(handle)
    else
      match Appended(handle, items[0])
      case Err(e) => Err(e)
      case Ok(list) => AppendAll(Some(list), items[1..])
  }

  /** Appending to a list keeps its items and puts the new ones after them, in order. */
  lemma {:induction false} AppendAllToList(prefix: seq<Value>, items: seq<Value>)
    ensures AppendAll(Some(List(prefix)), items) == Ok(Some(List(prefix + items)))
    decreases |items|
  {
    if items != [] {
      assert Appended(Some(List(prefix)), items[0]) == Ok(List(prefix + [items[0]]));
      assert AppendAll(Some(List(prefix)), items) == AppendAll(Some(List(prefix + [items[0]])), items[1..]);
      AppendAllToList(prefix + [items[0]], items[1..]);
      assert prefix + [items[0]] + items[1..] == prefix + items;
    } else {
      assert prefix + items == prefix;
    }
  }

  /** Appending the items one by one to a null handle builds the list of those
      items, in order; appending none leaves the handle null. */
  lemma {:induction false} AppendAllToNull(items: seq<Value>)
    ensures AppendAll(None, items) == Ok(if items == [] then None else Some(List(items)))
  {
    if items != [] {
      assert Appended(None, items[0]) == Ok(List([items[0]]));
      assert AppendAll(None, items) == AppendAll(Some(List([items[0]])), items[1..]);
      AppendAllToList([items[0]], items[1..]);
      assert [items[0]] + items[1..] == items;
    }
  }

  /** A `data_ptr`: a possibly null handle on a value. */
  class DataPtr {
    var target: Option<Value>

    /** The default-constructed, null handle. */
    constructor Null()
      ensures target == None
    {
      target := None;
    }

    /** A handle made by `make_data`. */
    constructor Of(v: Value)
      ensures target == Some(v)
    {
      target := Some(v);
    }

    /** `emplace_back(item)`: returns the new last element, or the exception. */
    method EmplaceBack(item: Value) returns (back: Result<Value>)
      modifies this
      ensures back.Ok? <==> Appended(old(target), item).Ok?
      ensures back.Ok? ==> back.value == item && target == Some(Appended(old(target), item).value)
      ensures back.Err? ==> back.error == NotAList && target == old(target)
    {
      if target.None? {
        target := Some(List([]));
      }
      var list := GetList(target.value);
      if list.Err? {
        return Err(list.error);
      }
      target := Some(List(list.value + [item]));
      back := Ok(item);
    }

    /** `push_back(item)`: `emplace_back` without the result. */
    method PushBack(item: Value) returns (failure: Option<Error>)
      modifies this
      ensures failure.None? <==> Appended(old(target), item).Ok?
      ensures failure.None? ==> target == Some(Appended(old(target), item).value)
      ensures failure.Some? ==> failure.value == NotAList && target == old(target)
    {
      var back := EmplaceBack(item);
      failure := if back.Ok? then None else Some(back.error);
    }
  }

  /** A `data_map`: the dictionary templates are rendered against; rendering
      rebinds its keys in place. */
  class Context {
    var entries: map<string, Value>

    constructor (entries: map<string, Value>)
      ensures this.entries == entries
    {
      this.entries := entries;
    }

    /** `has(key)` */
    function Has(key: string): bool
      reads this
    {
      key in entries
    }

    /** `empty()` */
    function IsEmpty(): bool
      reads this
    {
      |entries| == 0
    }

    /** `data[key] = value` */
    method Assign(key: string, value: Value)
      modifies this
      ensures entries == old(entries)[key := value]
    {
      entries := entries[key := value];
    }
  }
}

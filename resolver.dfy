/** `parse_val`: resolving a key such as `person.name` or `"literal"` against a
    dictionary. */
module Resolver {
  import opened Failures
  import opened Strings
  import opened Data

  /** The text `{$key}` that stands in for a key that is not bound. */
  function Echo(key: string): string {
    "{$" + key + "}"
  }

  predicate IsQuoted(key: string) {
    |key| > 0 && key[0] == '"'
  }

  /** `parse_val(key, data)`. A quoted key is a literal; a key without a dot is
      looked up; a dotted key looks up its first segment, which must be a
      dictionary, and resolves the rest in it. The only failure is a prefix
      bound to something that is not a dictionary. */
  function Resolve(key: string, data: map<string, Value>): (r: Result<Value>)
    ensures r.Err? ==> r.error == NotADictionary
    decreases |key|
  {
    if IsQuoted(key) then Ok(Scalar(TrimQuotes(key)))
    else match Find(key, '.')
      case None =>
        if key in data then Ok(data[key]) else Ok(Scalar(Echo(key)))
      case Some(index) =>
        var subKey := key[..index];
        if subKey !in data then Ok(Scalar(Echo(key)))
        else match GetMap(data[subKey])
          case Err(e) => Err(e)
          case Ok(inner) => Resolve(key[index + 1..], inner)
  }

  /** A quoted key is the literal between its quotes; the dictionary is not consulted. */
  lemma ResolveQuoted(key: string, data: map<string, Value>)
    requires IsQuoted(key)
    ensures Resolve(key, data) == Ok(Scalar(TrimQuotes(key)))
    ensures forall other: map<string, Value> :: Resolve(key, other) == Resolve(key, data)
  {
  }

  /** A plain key resolves to its binding, or to its own echo when it is absent. */
  lemma ResolvePlain(key: string, data: map<string, Value>)
    requires !IsQuoted(key) && '.' !in key
    ensures key in data ==> Resolve(key, data) == Ok(data[key])
    ensures key !in data ==> Resolve(key, data) == Ok(Scalar("{$" + key + "}"))
  {
  }

  /** A dotted key whose first segment is absent resolves to the echo of the whole key
      at this level. */
  lemma ResolveDottedAbsent(head: string, tail: string, data: map<string, Value>)
    requires !IsQuoted(head + "." + tail) && '.' !in head
    requires head !in data
    ensures Resolve(head + "." + tail, data) == Ok(Scalar("{$" + head + "." + tail + "}"))
  {
    var key := head + "." + tail;
    assert key[|head|] == '.' && key[..|head|] == head;
    FindFirst(key, '.', |head|);
    assert Echo(key) == "{$" + head + "." + tail + "}";
  }

  /** A dotted key whose first segment is bound to a string or a list throws
      "not a dictionary"; one bound to a dictionary continues inside it. */
  lemma ResolveDottedBound(head: string, tail: string, data: map<string, Value>)
    requires !IsQuoted(head + "." + tail) && '.' !in head
    requires head in data
    ensures !data[head].Map? ==> Resolve(head + "." + tail, data) == Err(NotADictionary)
    ensures data[head].Map? ==> Resolve(head + "." + tail, data) == Resolve(tail, data[head].entries)
  {
    var key := head + "." + tail;
    assert key[|head|] == '.' && key[..|head|] == head && key[|head| + 1..] == tail;
    FindFirst(key, '.', |head|);
  }

  /** The reference semantics of a path: walk the nested dictionaries segment by segment. */
  function Lookup(path: seq<string>, data: map<string, Value>): Option<Value>
    requires |path| >= 1
  {
    if path[0] !in data then None
    else if |path| == 1 then Some(data[path[0]])
    else if !data[path[0]].Map? then None
    else Lookup(path[1..], data[path[0]].entries)
  }

  /** The segments joined with dots. */
  function Dotted(path: seq<string>): string
    requires |path| >= 1
  {
    if |path| == 1 then path[0] else path[0] + "." + Dotted(path[1..])
  }

  /** A segment that `parse_val` reads as a name: no dot, and not starting with a quote. */
  predicate IsSegment(s: string) {
    '.' !in s && !IsQuoted(s)
  }

  /** A dotted path bound under nested dictionaries resolves to exactly the value
      bound at its end. */
  lemma {:induction false} ResolveLookup(path: seq<string>, data: map<string, Value>)
    requires |path| >= 1
    requires forall k :: 0 <= k < |path| ==> IsSegment(path[k])
    requires Lookup(path, data).Some?
    ensures Resolve(Dotted(path), data) == Ok(Lookup(path, data).value)
  {
    if |path| > 1 {
      var key := Dotted(path);
      assert key == path[0] + "." + Dotted(path[1..]);
      assert IsSegment(path[0]);
      assert key[|path[0]|] == '.' && key[..|path[0]|] == path[0];
      assert !IsQuoted(key) by {
        if path[0] == [] { assert key[0] == '.'; } else { assert key[0] == path[0][0]; }
      }
      assert forall k :: 0 <= k < |path[1..]| ==> IsSegment(path[1..][k]);
      ResolveDottedBound(path[0], Dotted(path[1..]), data);
      ResolveLookup(path[1..], data[path[0]].entries);
    }
  }
}

/**
  The `dataPaths` and `subViewNames` registries: objects used as sets
  (`registry[name] = true`) whose `Object.keys` list is what
  `getDataPaths` and `getSubViewNames` return.
 */
module NameRegistry {

  /** The keys of the object, in the order they were first assigned */
  datatype Registry = Registry(names: seq<string>)

  predicate Distinct(s: seq<string>) {
    forall i, j :: 0 <= i < j < |s| ==> s[i] != s[j]
  }

  /** An object's own keys are never repeated. */
  predicate Valid(r: Registry) {
    Distinct(r.names)
  }

  const Empty := Registry([])

  /** `registry[name] = true`: a new key goes last, an existing key keeps its place */
  function Add(r: Registry, name: string): (r': Registry)
    ensures Valid(r) ==> Valid(r')
    ensures forall n :: n in r'.names <==> n in r.names || n == name
    ensures r.names <= r'.names
    ensures name in r.names ==> r' == r
  {
    if name in r.names then r else Registry(r.names + [name])
  }

  /** `registerDataPaths(names)` and `registerSubViewNames(names)` */
  function Register(r: Registry, names: seq<string>): (r': Registry)
    ensures Valid(r) ==> Valid(r')
    ensures forall n :: n in r'.names <==> n in r.names || n in names
    ensures r.names <= r'.names
    decreases |names|
  {
    if |names| == 0 then r else Register(Add(r, names[0]), names[1..])
  }

  /** Registering names that are all present already changes nothing. */
  lemma {:induction false} RegisterKnown(r: Registry, names: seq<string>)
    requires forall i :: 0 <= i < |names| ==> names[i] in r.names
    ensures Register(r, names) == r
    decreases |names|
  {
    if |names| > 0 {
      RegisterKnown(r, names[1..]);
    }
  }

  /** Registering the same names twice is registering them once. */
  lemma RegisterIdempotent(r: Registry, names: seq<string>)
    ensures Register(Register(r, names), names) == Register(r, names)
  {
    RegisterKnown(Register(r, names), names);
  }

  /** Registering two lists one after the other is registering their concatenation. */
  lemma {:induction false} RegisterAppend(r: Registry, a: seq<string>, b: seq<string>)
    ensures Register(Register(r, a), b) == Register(r, a + b)
    decreases |a|
  {
    if |a| > 0 {
      var ab := a + b;
      assert ab[0] == a[0] && ab[1..] == a[1..] + b;
      assert Register(r, ab) == Register(Add(r, a[0]), a[1..] + b);
      assert Register(r, a) == Register(Add(r, a[0]), a[1..]);
      RegisterAppend(Add(r, a[0]), a[1..], b);
    } else {
      assert a + b == b;
    }
  }

  /** `getDataPaths()` after any registrations lists each registered name exactly once. */
  lemma ListedOnce(batches: seq<seq<string>>, name: string)
    ensures Valid(RegisterAll(Empty, batches))
    ensures name in RegisterAll(Empty, batches).names <==>
      exists i :: 0 <= i < |batches| && name in batches[i]
  {
    RegisterAllContents(Empty, batches, name);
  }

  /** One registration per compiled symbol */
  function RegisterAll(r: Registry, batches: seq<seq<string>>): (r': Registry)
    ensures Valid(r) ==> Valid(r')
    decreases |batches|
  {
    if |batches| == 0 then r else RegisterAll(Register(r, batches[0]), batches[1..])
  }

  /** The batches one after the other */
  function Flatten(batches: seq<seq<string>>): seq<string>
    decreases |batches|
  {
    if |batches| == 0 then [] else batches[0] + Flatten(batches[1..])
  }

  /** Registering batch after batch is registering all their names in one list. */
  lemma {:induction false} RegisterAllFlat(r: Registry, batches: seq<seq<string>>)
    ensures RegisterAll(r, batches) == Register(r, Flatten(batches))
    decreases |batches|
  {
    if |batches| > 0 {
      RegisterAllFlat(Register(r, batches[0]), batches[1..]);
      RegisterAppend(r, batches[0], Flatten(batches[1..]));
    }
  }

  lemma {:induction false} RegisterAllContents(r: Registry, batches: seq<seq<string>>, name: string)
    ensures name in RegisterAll(r, batches).names <==>
      name in r.names || exists i :: 0 <= i < |batches| && name in batches[i]
    decreases |batches|
  {
    if |batches| > 0 {
      RegisterAllContents(Register(r, batches[0]), batches[1..], name);
      if exists i :: 0 <= i < |batches| && name in batches[i] {
        var i :| 0 <= i < |batches| && name in batches[i];
        if i > 0 {
          assert name in batches[1..][i - 1];
        }
      }
      if exists i :: 0 <= i < |batches[1..]| && name in batches[1..][i] {
        var i :| 0 <= i < |batches[1..]| && name in batches[1..][i];
        assert name in batches[i + 1];
      }
    }
  }
}

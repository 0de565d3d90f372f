/**
  `Pistachio.getAt(ref, path)`: follow a dotted path (or an array of keys)
  through nested objects, stopping at a nullish value or an empty key.
 */
module PathLookup {
  import opened Strings

  /** The JavaScript values the walk passes through */
  datatype Value =
    | Undefined
    | Null
    | Primitive(text: string)
    | Object(props: map<string, Value>)

  /** The values for which `ref != null` is false */
  predicate IsNullish(v: Value) {
    v.Undefined? || v.Null?
  }

  /** `ref[prop]` on a value that is not nullish: an own property, else `undefined` */
  function Member(v: Value, prop: string): Value
    requires !IsNullish(v)
  {
    if v.Object? && prop in v.props then v.props[prop] else Undefined
  }

  /** The `path` argument: a string (it has `split`) or an array of keys (copied by `slice`) */
  datatype Path = Dotted(text: string) | Keys(keys: seq<string>)

  /**
    The `while` loop of `getAt`: a key is taken only while `ref` is not
    nullish, and an empty key (falsy) ends the walk.
   */
  function Walk(ref: Value, keys: seq<string>): Value
    decreases |keys|
  {
    if IsNullish(ref) || |keys| == 0 || keys[0] == "" then ref
    else Walk(Member(ref, keys[0]), keys[1..])
  }

  function GetAt(ref: Value, path: Path): (r: Value)
    ensures IsNullish(ref) ==> r == ref
    ensures path == Dotted("") ==> r == ref
    ensures path.Dotted? && |path.text| > 0 && path.text[0] == '.' ==> r == ref
    ensures path.Keys? && (|path.keys| == 0 || path.keys[0] == "") ==> r == ref
  {
    match path
    case Dotted(text) => Walk(ref, Split(text, '.'))
    case Keys(keys) => Walk(ref, keys)
  }

  /** A dotted path none of whose keys is empty (no leading, trailing or doubled dot) */
  predicate NoEmptyKey(text: string) {
    var keys := Split(text, '.');
    forall i :: 0 <= i < |keys| ==> keys[i] != ""
  }

  /** Walking non-empty keys and then more keys is walking the first keys, then the rest. */
  lemma {:induction false} WalkAppend(ref: Value, first: seq<string>, more: seq<string>)
    requires forall i :: 0 <= i < |first| ==> first[i] != ""
    ensures Walk(ref, first + more) == Walk(Walk(ref, first), more)
    decreases |first|
  {
    if |first| > 0 && !IsNullish(ref) {
      assert (first + more)[0] == first[0] != "";
      assert (first + more)[1..] == first[1..] + more;
      WalkAppend(Member(ref, first[0]), first[1..], more);
    } else if |first| == 0 {
      assert first + more == more;
    }
  }

  /** An empty key ends the walk: nothing after it is looked up. */
  lemma {:induction false} WalkStopsAtEmptyKey(ref: Value, before: seq<string>, after: seq<string>)
    ensures Walk(ref, before + [""] + after) == Walk(ref, before)
    decreases |before|
  {
    if |before| > 0 && !IsNullish(ref) && before[0] != "" {
      assert (before + [""] + after)[1..] == before[1..] + [""] + after;
      WalkStopsAtEmptyKey(Member(ref, before[0]), before[1..], after);
    }
  }

  /** `getAt(ref, "a.b")` is `getAt(getAt(ref, "a"), "b")` when "a" has no empty key. */
  lemma GetAtDottedConcat(ref: Value, a: string, b: string)
    requires NoEmptyKey(a)
    ensures GetAt(ref, Dotted(a + "." + b)) == GetAt(GetAt(ref, Dotted(a)), Dotted(b))
  {
    SplitAround(a, b, '.');
    WalkAppend(ref, Split(a, '.'), Split(b, '.'));
  }

  /** A doubled dot ends the walk: `getAt(ref, "a..b")` is `getAt(ref, "a")`. */
  lemma GetAtDoubleDot(ref: Value, a: string, b: string)
    ensures GetAt(ref, Dotted(a + ".." + b)) == GetAt(ref, Dotted(a))
  {
    SplitAround(a, "." + b, '.');
    SplitAround("", b, '.');
    assert a + ".." + b == a + "." + ("." + b);
    assert "" + "." + b == "." + b;
    assert Split("", '.') == [""];
    assert Split(a + ".." + b, '.') == Split(a, '.') + [""] + Split(b, '.');
    WalkStopsAtEmptyKey(ref, Split(a, '.'), Split(b, '.'));
  }

  /** A single non-empty key without dots is one property lookup. */
  lemma GetAtOneKey(ref: Value, key: string)
    requires key != "" && '.' !in key && !IsNullish(ref)
    ensures GetAt(ref, Dotted(key)) == Member(ref, key)
  {
    SplitWhole(key, '.');
    assert [key][1..] == [];
    assert Walk(ref, [key]) == Walk(Member(ref, key), []);
  }

  /** `getAt(ref, "a.b")` looks up `a`, then `b` on the result, unless a nullish value ends the walk. */
  lemma GetAtTwoKeys(ref: Value, a: string, b: string)
    requires a != "" && '.' !in a && b != "" && '.' !in b
    ensures IsNullish(ref) ==> GetAt(ref, Dotted(a + "." + b)) == ref
    ensures !IsNullish(ref) && IsNullish(Member(ref, a)) ==>
      GetAt(ref, Dotted(a + "." + b)) == Member(ref, a)
    ensures !IsNullish(ref) && !IsNullish(Member(ref, a)) ==>
      GetAt(ref, Dotted(a + "." + b)) == Member(Member(ref, a), b)
  {
    SplitWhole(a, '.');
    SplitWhole(b, '.');
    SplitAround(a, b, '.');
    assert Split(a + "." + b, '.') == [a, b];
    assert [a, b][1..] == [b];
    assert [b][1..] == [];
    if !IsNullish(ref) {
      assert Walk(ref, [a, b]) == Walk(Member(ref, a), [b]);
      if !IsNullish(Member(ref, a)) {
        assert Walk(Member(ref, a), [b]) == Walk(Member(Member(ref, a), b), []);
      }
    }
  }

  /** A key array walks exactly like the dotted string that splits into it. */
  lemma GetAtKeysAsDotted(ref: Value, keys: seq<string>)
    requires |keys| >= 1 && forall i :: 0 <= i < |keys| ==> '.' !in keys[i]
    ensures GetAt(ref, Keys(keys)) == GetAt(ref, Dotted(Join(keys, '.')))
  {
    SplitJoin(keys, '.');
  }
}

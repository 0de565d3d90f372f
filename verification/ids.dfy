/**
  `Pistachio.createId(prefix)`: `prefix + "el-" + counter`, where one counter,
  held in a closure, is shared by every call whatever the prefix. The model
  takes that counter in and gives the advanced counter back.
 */
module Ids {
  import opened Wrappers
  import opened Strings

  function CreateId(prefix: string, counter: nat): (r: (string, nat))
    ensures r.0 == prefix + "el-" + NatToString(counter) && r.1 == counter + 1
    ensures |r.0| > |prefix| && r.0[..|prefix|] == prefix
    ensures CounterOf(r.0) == Some(counter)
  {
    var id := prefix + "el-" + NatToString(counter);
    DigitSuffixAfter(prefix + "el-", NatToString(counter));
    assert id[|prefix + "el-"|..] == NatToString(counter);
    ParseNatToString(counter);
    (id, counter + 1)
  }

  /** The length of the run of digits that ends a string */
  function DigitSuffixLength(s: string): (n: nat)
    ensures n <= |s| && IsDigits(s[|s| - n..])
    ensures n < |s| ==> !IsDigit(s[|s| - n - 1])
    decreases |s|
  {
    if |s| == 0 || !IsDigit(s[|s| - 1]) then 0
    else
      var m := DigitSuffixLength(s[..|s| - 1]);
      DigitSuffixStep(s, m);
      1 + m
  }

  /** One more digit at the end lengthens the run by one. */
  lemma DigitSuffixStep(s: string, m: nat)
    requires |s| > 0 && m <= |s| - 1 && IsDigit(s[|s| - 1])
    requires IsDigits(s[..|s| - 1][|s| - 1 - m..])
    requires m < |s| - 1 ==> !IsDigit(s[..|s| - 1][|s| - 1 - m - 1])
    ensures IsDigits(s[|s| - (m + 1)..])
    ensures m + 1 < |s| ==> !IsDigit(s[|s| - (m + 1) - 1])
  {
    var t := s[..|s| - 1];
    var d := s[|s| - (m + 1)..];
    forall i | 0 <= i < |d|
      ensures IsDigit(d[i])
    {
      if i < m {
        assert d[i] == t[|t| - m..][i];
      } else {
        assert d[i] == s[|s| - 1];
      }
    }
  }

  /** The counter an id was made from: the numeral after its last '-', if any */
  function CounterOf(id: string): Option<nat>
  {
    var n := DigitSuffixLength(id);
    if n == 0 || n == |id| || id[|id| - n - 1] != '-' then None
    else Some(ParseDigits(id[|id| - n..]))
  }

  lemma {:induction false} DigitSuffixAfter(u: string, d: string)
    requires |u| > 0 && !IsDigit(u[|u| - 1]) && IsDigits(d)
    ensures DigitSuffixLength(u + d) == |d|
    decreases |d|
  {
    if |d| > 0 {
      assert (u + d)[..|u + d| - 1] == u + d[..|d| - 1];
      DigitSuffixAfter(u, d[..|d| - 1]);
    } else {
      assert u + d == u;
    }
  }

  /** Two ids made from different counters differ, whatever their prefixes. */
  lemma CreateIdUnique(p1: string, c1: nat, p2: string, c2: nat)
    requires c1 != c2
    ensures CreateId(p1, c1).0 != CreateId(p2, c2).0
  {
  }

  /** Successive calls `createId(prefixes[0])`, `createId(prefixes[1])`, ... */
  function CreateIds(prefixes: seq<string>, counter: nat): (r: (seq<string>, nat))
    ensures |r.0| == |prefixes| && r.1 == counter + |prefixes|
    ensures forall i :: 0 <= i < |r.0| ==> CounterOf(r.0[i]) == Some(counter + i)
    decreases |prefixes|
  {
    if |prefixes| == 0 then ([], counter)
    else
      var first := CreateId(prefixes[0], counter).0;
      var rest := CreateIds(prefixes[1..], counter + 1);
      CountersCons(first, rest.0, counter);
      ([first] + rest.0, rest.1)
  }

  lemma CountersCons(first: string, rest: seq<string>, counter: nat)
    requires CounterOf(first) == Some(counter)
    requires forall i :: 0 <= i < |rest| ==> CounterOf(rest[i]) == Some(counter + 1 + i)
    ensures forall i :: 0 <= i < |[first] + rest| ==> CounterOf(([first] + rest)[i]) == Some(counter + i)
  {
    forall i | 0 <= i < |[first] + rest|
      ensures CounterOf(([first] + rest)[i]) == Some(counter + i)
    {
      if i > 0 {
        assert ([first] + rest)[i] == rest[i - 1];
      }
    }
  }

  /** No two of successive `createId` calls return the same id. */
  lemma CreateIdsDistinct(prefixes: seq<string>, counter: nat)
    ensures var ids := CreateIds(prefixes, counter).0;
      forall i, j :: 0 <= i < j < |ids| ==> ids[i] != ids[j]
  {
    var ids := CreateIds(prefixes, counter).0;
    forall i, j | 0 <= i < j < |ids| ensures ids[i] != ids[j] {
      assert CounterOf(ids[i]) != CounterOf(ids[j]);
    }
  }
}

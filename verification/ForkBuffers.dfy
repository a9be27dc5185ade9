/**
 The bytes that identify a fork: parameters taken from hash maps in arbitrary iteration order,
 sorted, and concatenated (dsm/src/commitments/precommit.rs).
 */
module ForkBuffers {
  import opened Common

  /** Identifiers and parameter names as their UTF-8 bytes, ordered as Rust orders strings. */
  type Name = Bytes

  predicate AtMost(a: Name, b: Name) {
    a == [] || (b != [] && (a[0] < b[0] || (a[0] == b[0] && AtMost(a[1..], b[1..]))))
  }

  lemma {:induction false} AtMostIsTotal(a: Name, b: Name)
    ensures AtMost(a, b) || AtMost(b, a)
  {
    if a != [] && b != [] {
      AtMostIsTotal(a[1..], b[1..]);
    }
  }

  lemma {:induction false} AtMostIsAntisymmetric(a: Name, b: Name)
    requires AtMost(a, b) && AtMost(b, a)
    ensures a == b
  {
    if a != [] && b != [] {
      AtMostIsAntisymmetric(a[1..], b[1..]);
      assert a == [a[0]] + a[1..] && b == [b[0]] + b[1..];
    }
  }

  lemma {:induction false} AtMostIsTransitive(a: Name, b: Name, c: Name)
    requires AtMost(a, b) && AtMost(b, c)
    ensures AtMost(a, c)
  {
    if a != [] && b != [] && c != [] {
      if a[0] == b[0] && b[0] == c[0] {
        AtMostIsTransitive(a[1..], b[1..], c[1..]);
      }
    }
  }

  ghost predicate Sorted(s: seq<Name>) {
    forall i, j :: 0 <= i < j < |s| ==> AtMost(s[i], s[j]) && s[i] != s[j]
  }

  lemma {:induction false} NoElements(s: seq<Name>)
    ensures s == [] <==> Elements(s) == {}
  {
    if s != [] {
      assert s[0] in Elements(s);
    }
  }

  /** A sorted, duplicate-free list is determined by its elements. */
  lemma {:induction false} SortedIsUnique(s: seq<Name>, t: seq<Name>)
    requires Sorted(s) && Sorted(t) && Elements(s) == Elements(t)
    ensures s == t
    decreases |s|
  {
    NoElements(s);
    NoElements(t);
    if s != [] {
      assert s[0] in Elements(t);
      assert t[0] in Elements(s);
      FirstIsLeast(s, t[0]);
      FirstIsLeast(t, s[0]);
      AtMostIsAntisymmetric(s[0], t[0]);
      TailElements(s);
      TailElements(t);
      SortedIsUnique(s[1..], t[1..]);
      assert s == [s[0]] + s[1..] && t == [t[0]] + t[1..];
    }
  }

  lemma {:induction false} FirstIsLeast(s: seq<Name>, x: Name)
    requires Sorted(s) && x in s
    ensures AtMost(s[0], x)
  {
    AtMostIsTotal(s[0], s[0]);
  }

  lemma {:induction false} TailElements(s: seq<Name>)
    requires Sorted(s) && s != []
    ensures Sorted(s[1..]) && Elements(s[1..]) == Elements(s) - {s[0]}
  {
    forall x | x in Elements(s) && x != s[0] ensures x in s[1..] {
      var i :| 0 <= i < |s| && s[i] == x;
      assert s[1..][i - 1] == x;
    }
    assert forall x :: x in s[1..] ==> x in s;
    assert s[0] !in s[1..];
  }

  function Insert(x: Name, s: seq<Name>): (r: seq<Name>)
    ensures forall y :: y in r <==> y == x || y in s
  {
    if s == [] then [x]
    else if AtMost(x, s[0]) then [x] + s
    else [s[0]] + Insert(x, s[1..])
  }

  lemma {:induction false} InsertElements(x: Name, s: seq<Name>)
    ensures Elements(Insert(x, s)) == Elements(s) + {x}
  {
    hide Insert;
    forall y ensures y in Elements(Insert(x, s)) <==> y in Elements(s) + {x} {
      assert y in Insert(x, s) <==> y == x || y in s;
    }
  }

  lemma {:induction false} InsertKeepsSorted(x: Name, s: seq<Name>)
    requires Sorted(s) && x !in s
    ensures Sorted(Insert(x, s))
  {
    if s != [] {
      var r := Insert(x, s);
      if AtMost(x, s[0]) {
        forall j | 0 <= j < |s| ensures AtMost(x, s[j]) {
          if j > 0 {
            AtMostIsTransitive(x, s[0], s[j]);
          }
        }
        assert forall j :: 0 < j < |r| ==> r[j] == s[j - 1];
      } else {
        AtMostIsTotal(x, s[0]);
        InsertKeepsSorted(x, s[1..]);
        var tail := Insert(x, s[1..]);
        forall j | 0 <= j < |tail| ensures AtMost(s[0], tail[j]) && s[0] != tail[j] {
          assert tail[j] in tail;
          assert tail[j] == x || tail[j] in s[1..];
        }
        assert forall j :: 0 < j < |r| ==> r[j] == tail[j - 1];
      }
    }
  }

  /** The elements of a set in order; `SortedIsUnique` makes this the only sorted listing. */
  ghost function SortedNames(names: set<Name>): (s: seq<Name>)
    ensures Sorted(s) && Elements(s) == names
  {
    if names == {} then []
    else
      var x :| x in names;
      var rest := SortedNames(names - {x});
      assert x !in Elements(rest);
      InsertKeepsSorted(x, rest);
      InsertElements(x, rest);
      Insert(x, rest)
  }

  /** `keys().collect()` in whatever order the hash map yields, then `sort()`. */
  method CollectSorted(names: set<Name>) returns (r: seq<Name>)
    ensures r == SortedNames(names)
  {
    r := [];
    var todo := names;
    while todo != {}
      invariant todo <= names && Sorted(r) && Elements(r) == names - todo
      decreases todo
    {
      var x :| x in todo;
      assert x !in Elements(r);
      InsertKeepsSorted(x, r);
      InsertElements(x, r);
      todo := todo - {x};
      r := Insert(x, r);
    }
    SortedIsUnique(r, SortedNames(names));
  }

  // ---------------------------------------------------------------- the buffer

  function Pairs(keys: seq<Name>, values: map<Name, Bytes>): Bytes
    requires forall k :: k in keys ==> k in values
  {
    if keys == [] then [] else keys[0] + values[keys[0]] + Pairs(keys[1..], values)
  }

  function Joined(names: seq<Name>): Bytes {
    if names == [] then [] else names[0] + Joined(names[1..])
  }

  /** What identifies a fork of the commitment `base`, whatever order its maps iterate in. */
  ghost function ForkBytes(base: Bytes, id: Name, fixedParams: map<Name, Bytes>, variableParams: set<Name>): Bytes {
    var keys := SortedNames(fixedParams.Keys);
    assert forall k :: k in keys ==> k in Elements(keys);
    base + id + Pairs(keys, fixedParams) + Joined(SortedNames(variableParams))
  }

  lemma {:induction false} PairsAppend(keys: seq<Name>, k: Name, values: map<Name, Bytes>)
    requires (forall x :: x in keys ==> x in values) && k in values
    ensures Pairs(keys + [k], values) == Pairs(keys, values) + k + values[k]
  {
    if keys == [] {
      assert [k][1..] == [] && keys + [k] == [k];
    } else {
      PairsAppend(keys[1..], k, values);
      assert (keys + [k])[1..] == keys[1..] + [k];
      var head, rest := keys[0] + values[keys[0]], Pairs(keys[1..], values);
      assert Pairs(keys + [k], values) == head + (rest + k + values[k]);
      assert head + (rest + k + values[k]) == (head + rest) + k + values[k];
    }
  }

  lemma {:induction false} JoinedAppend(names: seq<Name>, x: Name)
    ensures Joined(names + [x]) == Joined(names) + x
  {
    if names == [] {
      assert [x][1..] == [] && names + [x] == [x];
    } else {
      JoinedAppend(names[1..], x);
      assert (names + [x])[1..] == names[1..] + [x];
    }
  }

  method AppendPairs(start: Bytes, keys: seq<Name>, values: map<Name, Bytes>) returns (buffer: Bytes)
    requires forall k :: k in keys ==> k in values
    ensures buffer == start + Pairs(keys, values)
  {
    buffer := start;
    for i := 0 to |keys|
      invariant buffer == start + Pairs(keys[..i], values)
    {
      assert keys[..i + 1] == keys[..i] + [keys[i]];
      PairsAppend(keys[..i], keys[i], values);
      buffer := buffer + keys[i] + values[keys[i]];
    }
    assert keys[..|keys|] == keys;
  }

  method AppendNames(start: Bytes, names: seq<Name>) returns (buffer: Bytes)
    ensures buffer == start + Joined(names)
  {
    buffer := start;
    for i := 0 to |names|
      invariant buffer == start + Joined(names[..i])
    {
      assert names[..i + 1] == names[..i] + [names[i]];
      JoinedAppend(names[..i], names[i]);
      buffer := buffer + names[i];
    }
    assert names[..|names|] == names;
  }

  /**
   The buffer that `new_forked` and `compute_fork_verification_context` both build: the result
   does not depend on how the two hash collections were iterated.
   */
  method BuildBuffer(base: Bytes, id: Name, fixedParams: map<Name, Bytes>,
                     variableParams: set<Name>) returns (buffer: Bytes)
    ensures buffer == ForkBytes(base, id, fixedParams, variableParams)
  {
    var keys := CollectSorted(fixedParams.Keys);
    var vars := CollectSorted(variableParams);
    assert forall k :: k in keys ==> k in Elements(keys);
    buffer := AppendPairs(base + id, keys, fixedParams);
    buffer := AppendNames(buffer, vars);
  }

  // ---------------------------------------------------------------- what the buffer holds

  function PairsLength(keys: seq<Name>, values: map<Name, Bytes>): nat
    requires forall k :: k in keys ==> k in values
  {
    if keys == [] then 0 else |keys[0]| + |values[keys[0]]| + PairsLength(keys[1..], values)
  }

  function JoinedLength(names: seq<Name>): nat {
    if names == [] then 0 else |names[0]| + JoinedLength(names[1..])
  }

  lemma {:induction false} PartLengths(keys: seq<Name>, values: map<Name, Bytes>, names: seq<Name>)
    requires forall k :: k in keys ==> k in values
    ensures |Pairs(keys, values)| == PairsLength(keys, values) && |Joined(names)| == JoinedLength(names)
    decreases |keys| + |names|
  {
    if keys != [] {
      PartLengths(keys[1..], values, names);
    } else if names != [] {
      PartLengths(keys, values, names[1..]);
    }
  }

  ghost predicate SameShape(a: map<Name, Bytes>, b: map<Name, Bytes>) {
    a.Keys == b.Keys && forall k :: k in a ==> |a[k]| == |b[k]|
  }

  /** Among values of the same lengths, the pairs determine every value. */
  lemma {:induction false} PairsDetermineValues(keys: seq<Name>, a: map<Name, Bytes>, b: map<Name, Bytes>, k: Name)
    requires (forall x :: x in keys ==> x in a) && SameShape(a, b) && k in keys
    requires forall x :: x in keys ==> x in b
    ensures |Pairs(keys, a)| == |Pairs(keys, b)|
    ensures Pairs(keys, a) == Pairs(keys, b) ==> a[k] == b[k]
  {
    SameShapeSameLength(keys, a, b);
    var x, rest := keys[0], keys[1..];
    var p, q := Pairs(keys, a), Pairs(keys, b);
    var n := |x|;
    var m := n + |a[x]|;
    assert x in keys;
    assert p[n..m] == a[x] && p[m..] == Pairs(rest, a);
    assert q[n..m] == b[x] && q[m..] == Pairs(rest, b);
    if k in rest {
      PairsDetermineValues(rest, a, b, k);
    }
  }

  lemma {:induction false} SameShapeSameLength(keys: seq<Name>, a: map<Name, Bytes>, b: map<Name, Bytes>)
    requires (forall x :: x in keys ==> x in a) && SameShape(a, b)
    requires forall x :: x in keys ==> x in b
    ensures |Pairs(keys, a)| == |Pairs(keys, b)|
  {
    if keys != [] {
      assert keys[0] in keys;
      SameShapeSameLength(keys[1..], a, b);
    }
  }

  /** The buffer is as long as all its parts together. */
  lemma {:induction false} ForkBytesLength(base: Bytes, id: Name, fixedParams: map<Name, Bytes>,
                                           variableParams: set<Name>)
    ensures var keys := SortedNames(fixedParams.Keys);
            && (forall k :: k in keys ==> k in fixedParams)
            && |ForkBytes(base, id, fixedParams, variableParams)| ==
               |base| + |id| + PairsLength(keys, fixedParams) + JoinedLength(SortedNames(variableParams))
  {
    var keys := SortedNames(fixedParams.Keys);
    assert forall k :: k in keys ==> k in Elements(keys);
    PartLengths(keys, fixedParams, SortedNames(variableParams));
  }

  /**
   Between forks whose parts have the same lengths, the buffer determines the base hash, the id, every
   fixed value and the joined variable names: changing any of them changes the hashed bytes.
   */
  lemma {:induction false} ForkBytesDetermine(base: Bytes, id: Name, fixedParams: map<Name, Bytes>, names: set<Name>,
                                              base': Bytes, id': Name, fixedParams': map<Name, Bytes>,
                                              names': set<Name>)
    requires |base| == |base'| && |id| == |id'| && SameShape(fixedParams, fixedParams')
    requires ForkBytes(base, id, fixedParams, names) == ForkBytes(base', id', fixedParams', names')
    ensures base == base' && id == id' && fixedParams == fixedParams'
    ensures Joined(SortedNames(names)) == Joined(SortedNames(names'))
  {
    hide Pairs, Joined, SortedNames;
    var keys := SortedNames(fixedParams.Keys);
    assert forall k :: k in keys <==> k in Elements(keys);
    SameShapeSameLength(keys, fixedParams, fixedParams');
    FourParts(base, id, Pairs(keys, fixedParams), Joined(SortedNames(names)),
              base', id', Pairs(keys, fixedParams'), Joined(SortedNames(names')));
    forall k | k in fixedParams ensures fixedParams[k] == fixedParams'[k] {
      PairsDetermineValues(keys, fixedParams, fixedParams', k);
    }
  }

  lemma {:induction false} FourParts(a: Bytes, b: Bytes, c: Bytes, d: Bytes, a': Bytes, b': Bytes, c': Bytes, d': Bytes)
    requires |a| == |a'| && |b| == |b'| && |c| == |c'| && a + b + c + d == a' + b' + c' + d'
    ensures a == a' && b == b' && c == c' && d == d'
  {
    var x, y := a + b + c + d, a' + b' + c' + d';
    var i, j, k := |a|, |a| + |b|, |a| + |b| + |c|;
    assert x[..i] == a && x[i..j] == b && x[j..k] == c && x[k..] == d;
    assert y[..i] == a' && y[i..j] == b' && y[j..k] == c' && y[k..] == d';
  }
}

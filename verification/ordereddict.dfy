/** The Python `dict` that `main` fills in its question loop: an insertion-ordered
    sequence of key/value pairs. Assigning to a present key overwrites its value in
    place; assigning to a new key appends it. */
module OrderedDict {
  import opened Wrappers

  /** Questions map to answers. */
  type Dict = seq<(string, string)>

  /** `list(d.keys())`: the keys in insertion order. */
  function Keys(d: Dict): (ks: seq<string>)
    ensures |ks| == |d|
    ensures forall i :: 0 <= i < |d| ==> ks[i] == d[i].0
  {
    if |d| == 0 then [] else [d[0].0] + Keys(d[1..])
  }

  /** `d.get(k)`. */
  function Lookup(d: Dict, k: string): Option<string> {
    if |d| == 0 then None
    else if d[0].0 == k then Some(d[0].1)
    else Lookup(d[1..], k)
  }

  /** `d[k] = v`: afterwards `k` maps to `v`, and no other key's value changes. */
  function Insert(d: Dict, k: string, v: string): (r: Dict)
    ensures Lookup(r, k) == Some(v)
    ensures forall k' :: k' != k ==> Lookup(r, k') == Lookup(d, k')
  {
    if |d| == 0 then [(k, v)]
    else if d[0].0 == k then [(k, v)] + d[1..]
    else
      var rest := Insert(d[1..], k, v);
      assert ([d[0]] + rest)[1..] == rest;
      [d[0]] + rest
  }

  /** The key keeps its position if present and is appended otherwise. */
  lemma {:induction false} InsertKeys(d: Dict, k: string, v: string)
    ensures k in Keys(d) ==> Keys(Insert(d, k, v)) == Keys(d)
    ensures k !in Keys(d) ==> Keys(Insert(d, k, v)) == Keys(d) + [k]
  {
    if |d| > 0 && d[0].0 != k {
      var rest := Insert(d[1..], k, v);
      InsertKeys(d[1..], k, v);
      assert Keys(d) == [d[0].0] + Keys(d[1..]);
      assert ([d[0]] + rest)[1..] == rest;
      assert Keys(Insert(d, k, v)) == [d[0].0] + Keys(rest);
    }
  }

  /** The dict built by assigning `vs[j]` to `ks[j]` for `j` in order, starting from
      `{}`: the loop `for question in questions: results[question] = answer`. */
  function FromPairs(ks: seq<string>, vs: seq<string>): (r: Dict)
    requires |ks| == |vs|
    ensures forall k :: Lookup(r, k).Some? <==> k in ks
  {
    if |ks| == 0 then []
    else
      assert forall k :: k in ks <==> k in ks[..|ks| - 1] || k == ks[|ks| - 1];
      Insert(FromPairs(ks[..|ks| - 1], vs[..|vs| - 1]), ks[|ks| - 1], vs[|vs| - 1])
  }

  /** Index of the first occurrence of `x` in `ks` (`|ks|` when absent). */
  function FirstIndex(ks: seq<string>, x: string): (n: nat)
    ensures n <= |ks|
    ensures x in ks ==> n < |ks| && ks[n] == x
    ensures forall j :: 0 <= j < n ==> ks[j] != x
  {
    if |ks| == 0 then 0
    else if ks[0] == x then 0
    else 1 + FirstIndex(ks[1..], x)
  }

  /** `keys` lists the distinct elements of `ks` by order of first occurrence. */
  ghost predicate InFirstOccurrenceOrder(keys: seq<string>, ks: seq<string>) {
    && (forall x :: x in keys <==> x in ks)
    && (forall i, j :: 0 <= i < j < |keys| ==> FirstIndex(ks, keys[i]) < FirstIndex(ks, keys[j]))
  }

  /** The keys of the built dict are the distinct keys assigned, in the order of
      their first assignment (a repeated key keeps its first position). */
  lemma {:induction false} FromPairsKeys(ks: seq<string>, vs: seq<string>)
    requires |ks| == |vs|
    ensures InFirstOccurrenceOrder(Keys(FromPairs(ks, vs)), ks)
  {
    if |ks| > 0 {
      var n := |ks| - 1;
      var p, x := ks[..n], ks[n];
      assert ks == p + [x];
      FromPairsKeys(p, vs[..n]);
      InsertKeys(FromPairs(p, vs[..n]), x, vs[n]);
      var before := Keys(FromPairs(p, vs[..n]));
      assert x in before <==> x in p;
      if x in p {
        OrderExtendSeen(before, p, x);
      } else {
        OrderExtendNew(before, p, x);
      }
    }
  }

  /** Assigning a key already seen leaves the first-occurrence order as it was. */
  lemma OrderExtendSeen(keys: seq<string>, p: seq<string>, x: string)
    requires InFirstOccurrenceOrder(keys, p) && x in p
    ensures InFirstOccurrenceOrder(keys, p + [x])
  {
    forall y | y in p
      ensures FirstIndex(p + [x], y) == FirstIndex(p, y)
    {
      FirstIndexExtend(p, x, y);
    }
    assert forall i :: 0 <= i < |keys| ==> keys[i] in p;
  }

  /** Assigning a new key appends it to the first-occurrence order. */
  lemma OrderExtendNew(keys: seq<string>, p: seq<string>, x: string)
    requires InFirstOccurrenceOrder(keys, p) && x !in p
    ensures InFirstOccurrenceOrder(keys + [x], p + [x])
  {
    var ks, after := p + [x], keys + [x];
    forall y | y in p
      ensures FirstIndex(ks, y) == FirstIndex(p, y) < |p|
    {
      FirstIndexExtend(p, x, y);
    }
    FirstIndexNew(p, x);
    forall i, j | 0 <= i < j < |after|
      ensures FirstIndex(ks, after[i]) < FirstIndex(ks, after[j])
    {
      assert after[i] == keys[i] && keys[i] in p;
      if j < |keys| {
        assert after[j] == keys[j] && keys[j] in p;
      }
    }
  }

  lemma FirstIndexExtend(p: seq<string>, x: string, y: string)
    requires y in p
    ensures FirstIndex(p + [x], y) == FirstIndex(p, y)
  {
    var a, b := FirstIndex(p + [x], y), FirstIndex(p, y);
    assert (p + [x])[b] == y;
    assert a <= b;
    assert p[a] == (p + [x])[a];
  }

  lemma FirstIndexNew(p: seq<string>, x: string)
    requires x !in p
    ensures FirstIndex(p + [x], x) == |p|
  {
    assert (p + [x])[|p|] == x;
  }

  /** Each key maps to the value of its last assignment. */
  lemma {:induction false} FromPairsLastWins(ks: seq<string>, vs: seq<string>, j: nat)
    requires |ks| == |vs| && j < |ks|
    requires forall j' :: j < j' < |ks| ==> ks[j'] != ks[j]
    ensures Lookup(FromPairs(ks, vs), ks[j]) == Some(vs[j])
  {
    var n := |ks| - 1;
    if j < n {
      var p, w := ks[..n], vs[..n];
      LastAssignedPrefix(ks, j, n);
      FromPairsLastWins(p, w, j);
      LastWinsStep(ks, vs, j);
    } else {
      LookupAfterLast(ks, vs);
    }
  }

  /** A key not assigned again after `j` is not assigned again in a prefix either. */
  lemma LastAssignedPrefix(ks: seq<string>, j: nat, n: nat)
    requires j < n <= |ks|
    requires forall j' :: j < j' < |ks| ==> ks[j'] != ks[j]
    ensures forall j' :: j < j' < n ==> ks[..n][j'] != ks[..n][j]
  {
  }

  /** A value that survives to the prefix survives the last assignment of another key. */
  lemma LastWinsStep(ks: seq<string>, vs: seq<string>, j: nat)
    requires |ks| == |vs| && j < |ks| - 1
    requires ks[|ks| - 1] != ks[j]
    requires Lookup(FromPairs(ks[..|ks| - 1], vs[..|vs| - 1]), ks[..|ks| - 1][j]) == Some(vs[..|vs| - 1][j])
    ensures Lookup(FromPairs(ks, vs), ks[j]) == Some(vs[j])
  {
    LookupAfterOther(ks, vs, ks[j]);
  }

  /** The last assignment decides the value of its key. */
  lemma LookupAfterLast(ks: seq<string>, vs: seq<string>)
    requires |ks| == |vs| > 0
    ensures Lookup(FromPairs(ks, vs), ks[|ks| - 1]) == Some(vs[|vs| - 1])
  {
  }

  /** The last assignment leaves every other key as it was. */
  lemma LookupAfterOther(ks: seq<string>, vs: seq<string>, k: string)
    requires |ks| == |vs| > 0 && k != ks[|ks| - 1]
    ensures Lookup(FromPairs(ks, vs), k) == Lookup(FromPairs(ks[..|ks| - 1], vs[..|vs| - 1]), k)
  {
  }

  /** Every value in the built dict is a value assigned to its key. */
  lemma {:induction false} FromPairsValue(ks: seq<string>, vs: seq<string>, k: string)
    requires |ks| == |vs|
    ensures Lookup(FromPairs(ks, vs), k).Some? ==>
              exists j :: 0 <= j < |ks| && ks[j] == k && Lookup(FromPairs(ks, vs), k).value == vs[j]
  {
    if |ks| > 0 {
      var n := |ks| - 1;
      if ks[n] != k {
        FromPairsValue(ks[..n], vs[..n], k);
        if Lookup(FromPairs(ks, vs), k).Some? {
          var j :| 0 <= j < n && ks[..n][j] == k && Lookup(FromPairs(ks[..n], vs[..n]), k).value == vs[..n][j];
          assert ks[j] == k && vs[j] == vs[..n][j];
        }
      }
    }
  }
}

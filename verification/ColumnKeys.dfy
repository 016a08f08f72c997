/** internal/schema/rows.go: one distinct key for each column, and where that fails. */
module ColumnKeys {
  import opened GoStrings

  /** How often n occurs in names. */
  function Count(names: seq<Bytes>, n: Bytes): (c: nat)
    ensures c > 0 <==> n in names
  {
    if names == [] then 0
    else Count(names[..|names| - 1], n) + if names[|names| - 1] == n then 1 else 0
  }

  function Suffixed(n: Bytes, k: nat): Bytes {
    n + "_" + Itoa(k)
  }

  /** The key of the k-th column called n. */
  function KeyFor(n: Bytes, k: nat): Bytes {
    if k <= 1 then n else Suffixed(n, k)
  }

  /** Which occurrence of its name column i is, counted from 1. */
  function Occurrence(names: seq<Bytes>, i: nat): nat
    requires i < |names|
  {
    Count(names[..i + 1], names[i])
  }

  function Keys(names: seq<Bytes>): (keys: seq<Bytes>)
    ensures |keys| == |names|
  {
    seq(|names|, i requires 0 <= i < |names| => KeyFor(names[i], Occurrence(names, i)))
  }

  lemma KeyAt(names: seq<Bytes>, i: nat)
    requires i < |names|
    ensures Keys(names)[i] == KeyFor(names[i], Occurrence(names, i))
  {
  }

  lemma CountStep(names: seq<Bytes>, i: nat)
    requires i < |names|
    ensures forall n {:trigger Count(names[..i + 1], n)} ::
              Count(names[..i + 1], n) == Count(names[..i], n) + if n == names[i] then 1 else 0
  {
    assert names[..i + 1][..i] == names[..i];
  }

  method Uniquify(names: seq<Bytes>) returns (keys: seq<Bytes>)
    ensures keys == Keys(names)
  {
    hide Count, Keys, Itoa;
    var seen: map<Bytes, nat> := map[];
    CountOfNone();
    var out := new Bytes[|names|](_ => []);
    for i := 0 to |names|
      invariant forall n :: (if n in seen then seen[n] else 0) == Count(names[..i], n)
      invariant forall j | 0 <= j < i :: out[j] == Keys(names)[j]
    {
      var n := names[i];
      CountStep(names, i);
      KeyAt(names, i);
      var count := if n in seen then seen[n] else 0;
      seen := seen[n := count + 1];
      assert count + 1 == Occurrence(names, i);
      hide Occurrence;
      if count == 0 {
        out[i] := n;
      } else {
        out[i] := n + "_" + Itoa(count + 1);
      }
      assert out[i] == Keys(names)[i];
    }
    keys := out[..];
  }

  lemma CountOfNone()
    ensures forall n :: Count([], n) == 0
  {
  }

  predicate Distinct(keys: seq<Bytes>) {
    forall i, j | 0 <= i < j < |keys| :: keys[i] != keys[j]
  }

  // ----- occurrences -----

  lemma {:induction false} CountGrows(names: seq<Bytes>, n: Bytes, i: nat)
    requires i <= |names|
    ensures Count(names[..i], n) <= Count(names, n)
    decreases |names| - i
  {
    if i == |names| {
      assert names[..i] == names;
    } else {
      assert names[..i + 1][..i] == names[..i];
      CountGrows(names, n, i + 1);
    }
  }

  /** Two columns with the same name are different occurrences of it. */
  lemma OccurrencesDiffer(names: seq<Bytes>, i: nat, j: nat)
    requires i < j < |names| && names[i] == names[j]
    ensures Occurrence(names, i) < Occurrence(names, j)
  {
    CountGrows(names[..j], names[i], i + 1);
    assert names[..j][..i + 1] == names[..i + 1];
    assert names[..j + 1][..j] == names[..j];
  }

  lemma OccurrenceBounds(names: seq<Bytes>, i: nat)
    requires i < |names|
    ensures 1 <= Occurrence(names, i) <= Count(names, names[i])
  {
    CountGrows(names, names[i], i + 1);
    assert names[..i + 1][i] == names[i];
  }

  lemma {:induction false} KthOccurrence(names: seq<Bytes>, n: Bytes, k: nat) returns (i: nat)
    requires 1 <= k <= Count(names, n)
    ensures i < |names| && names[i] == n && Occurrence(names, i) == k
  {
    var last := |names| - 1;
    if k <= Count(names[..last], n) {
      i := KthOccurrence(names[..last], n, k);
      assert names[..last][..i + 1] == names[..i + 1];
    } else {
      i := last;
      assert names[..last + 1] == names;
    }
  }

  /** The columns called n among the first i. */
  function Called(names: seq<Bytes>, n: Bytes, i: nat): (r: set<nat>)
    requires i <= |names|
    ensures forall j: nat :: j in r <==> j < i && names[j] == n
  {
    set j: nat | j < i && names[j] == n
  }

  /** The columns in front of column i that have its name. */
  function Earlier(names: seq<Bytes>, i: nat): set<nat>
    requires i < |names|
  {
    Called(names, names[i], i)
  }

  lemma CalledStep(names: seq<Bytes>, n: Bytes, i: nat)
    requires i < |names|
    ensures |Called(names, n, i + 1)| == |Called(names, n, i)| + if names[i] == n then 1 else 0
  {
    var before := Called(names, n, i);
    assert i !in before;
    assert Called(names, n, i + 1) == if names[i] == n then before + {i} else before;
  }

  lemma {:induction false} CountIsSize(names: seq<Bytes>, n: Bytes, i: nat)
    requires i <= |names|
    ensures Count(names[..i], n) == |Called(names, n, i)|
  {
    hide Count, Called;
    if i == 0 {
      CountOfNone();
      assert names[..0] == [] && Count([], n) == 0;
      assert Called(names, n, 0) == {};
    } else {
      var last := i - 1;
      CountIsSize(names, n, last);
      CountStep(names, last);
      CalledStep(names, n, last);
      assert Count(names[..last + 1], n) == |Called(names, n, last + 1)|;
    }
  }

  /** The first column of a name keeps it; one with k columns of its name in front gets the suffix k + 1. */
  lemma KeyByPosition(names: seq<Bytes>, i: nat)
    requires i < |names|
    ensures Keys(names)[i] ==
      if Earlier(names, i) == {} then names[i] else names[i] + "_" + Itoa(|Earlier(names, i)| + 1)
  {
    hide Count, Itoa, Called, Keys;
    CountIsSize(names, names[i], i + 1);
    CalledStep(names, names[i], i);
    KeyAt(names, i);
    assert |Earlier(names, i)| == 0 <==> Earlier(names, i) == {};
  }

  // ----- generated keys -----

  /** A generated key tells its name and its number: it splits at the last underscore only. */
  lemma SuffixedInjective(m: Bytes, k: nat, n: Bytes, l: nat)
    requires Suffixed(m, k) == Suffixed(n, l)
    ensures m == n && k == l
  {
    var s, a, b := Suffixed(m, k), Itoa(k), Itoa(l);
    SuffixedEnds(m, k);
    SuffixedEnds(n, l);
    assert |a| == |b|;
    ItoaInjective(k, l);
  }

  lemma SuffixedEnds(n: Bytes, k: nat)
    ensures var s, d := Suffixed(n, k), Itoa(k);
      && s[..|s| - |d| - 1] == n
      && s[|s| - |d| - 1] == '_'
      && s[|s| - |d|..] == d
      && forall j | |s| - |d| <= j < |s| :: IsDigit(s[j]) && s[j] == d[j - (|s| - |d|)]
  {
  }

  /** Some column is called what the k-th column of another name would be called. */
  ghost predicate SuffixTaken(names: seq<Bytes>) {
    exists n: Bytes, k: nat :: 2 <= k <= Count(names, n) && Suffixed(n, k) in names
  }

  lemma CollisionTakesASuffix(names: seq<Bytes>, i: nat, j: nat)
    requires i < j < |names| && Keys(names)[i] == Keys(names)[j]
    ensures SuffixTaken(names)
  {
    hide Count, Itoa, Keys, Suffixed;
    KeyAt(names, i);
    KeyAt(names, j);
    OccurrenceBounds(names, i);
    OccurrenceBounds(names, j);
    var m, k, n, l := names[i], Occurrence(names, i), names[j], Occurrence(names, j);
    if m == n {
      OccurrencesDiffer(names, i, j);
    }
    if k >= 2 && l >= 2 {
      SuffixedInjective(m, k, n, l);
    } else if k >= 2 {
      assert Suffixed(m, k) in names;
    } else {
      assert l >= 2 && Suffixed(n, l) in names;
    }
  }

  lemma TakenSuffixCollides(names: seq<Bytes>)
    requires SuffixTaken(names)
    ensures !Distinct(Keys(names))
  {
    hide Count, Itoa, Keys;
    var n: Bytes, k: nat :| 2 <= k <= Count(names, n) && Suffixed(n, k) in names;
    var m := Suffixed(n, k);
    var i := KthOccurrence(names, m, 1);
    var j := KthOccurrence(names, n, k);
    KeyAt(names, i);
    KeyAt(names, j);
    assert |m| > |n| by {
      assert |m| == |n| + 1 + |Itoa(k)|;
    }
  }

  /** The keys are pairwise distinct exactly when no column is named like a generated key. */
  lemma KeysDistinctIff(names: seq<Bytes>)
    ensures Distinct(Keys(names)) <==> !SuffixTaken(names)
  {
    if SuffixTaken(names) {
      TakenSuffixCollides(names);
    }
    if !Distinct(Keys(names)) {
      var i, j :| 0 <= i < j < |names| && Keys(names)[i] == Keys(names)[j];
      CollisionTakesASuffix(names, i, j);
    }
  }

  lemma CountLast(names: seq<Bytes>, m: Bytes, n: Bytes)
    ensures Count(names + [m], n) == Count(names, n) + if m == n then 1 else 0
  {
    assert (names + [m])[..|names|] == names;
  }

  /** The failing family is not empty: of three columns called a, a_2 and a, two share a key. */
  lemma KeysCanCollide()
    ensures !Distinct(Keys(["a", "a_2", "a"]))
  {
    var names: seq<Bytes> := ["a"] + ["a_2"] + ["a"];
    assert Count(names, "a") == 2 by {
      CountLast(["a"] + ["a_2"], "a", "a");
      CountLast(["a"], "a_2", "a");
      CountLast([], "a", "a");
      assert [] + ["a"] == ["a"];
    }
    assert names == ["a", "a_2", "a"];
    assert Suffixed("a", 2) == names[1];
    TakenSuffixCollides(names);
  }
}

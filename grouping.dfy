/** Reference definitions for grouping a list of rows by a string key, in
    order of first appearance, and the properties the reducers of the query
    layer rely on. */
module Grouping {

  /** The distinct keys of `xs`, in the order in which each first appears. */
  function Keys<T>(xs: seq<T>, key: T -> string): seq<string>
    decreases |xs|
  {
    if xs == [] then []
    else
      var ks := Keys(xs[..|xs| - 1], key);
      if key(xs[|xs| - 1]) in ks then ks else ks + [key(xs[|xs| - 1])]
  }

  /** The elements of `xs` whose key is `k`, in input order. */
  function Members<T>(xs: seq<T>, key: T -> string, k: string): seq<T>
    decreases |xs|
  {
    if xs == [] then []
    else Members(xs[..|xs| - 1], key, k) + (if key(xs[|xs| - 1]) == k then [xs[|xs| - 1]] else [])
  }

  /** The sizes of the groups named by `ks`, added up. */
  function TotalSize<T>(xs: seq<T>, key: T -> string, ks: seq<string>): nat
    decreases |ks|
  {
    if ks == [] then 0
    else TotalSize(xs, key, ks[..|ks| - 1]) + |Members(xs, key, ks[|ks| - 1])|
  }

  predicate Distinct(ks: seq<string>)
  {
    forall i, j :: 0 <= i < j < |ks| ==> ks[i] != ks[j]
  }

  /** No key names two groups. */
  lemma {:induction false} KeysDistinct<T>(xs: seq<T>, key: T -> string)
    ensures Distinct(Keys(xs, key))
    decreases |xs|
  {
    if xs != [] {
      KeysDistinct(xs[..|xs| - 1], key);
    }
  }

  /** An element belongs to the group of key `k` exactly when its own key is
      `k`; so every element lies in exactly one group. */
  lemma {:induction false} MembersExact<T>(xs: seq<T>, key: T -> string, k: string)
    ensures forall x :: x in Members(xs, key, k) <==> x in xs && key(x) == k
    decreases |xs|
  {
    if xs != [] {
      var init := xs[..|xs| - 1];
      MembersExact(init, key, k);
      assert xs == init + [xs[|xs| - 1]];
    }
  }

  /** Every element's key names a group, and every group is non-empty. */
  lemma {:induction false} KeysCover<T>(xs: seq<T>, key: T -> string)
    ensures forall x :: x in xs ==> key(x) in Keys(xs, key)
    ensures forall k :: k in Keys(xs, key) ==> Members(xs, key, k) != []
    decreases |xs|
  {
    if xs != [] {
      var init := xs[..|xs| - 1];
      KeysCover(init, key);
      assert xs == init + [xs[|xs| - 1]];
    }
  }

  /** A key that names no group has no members. */
  lemma NoKeyNoMembers<T>(xs: seq<T>, key: T -> string, k: string)
    requires k !in Keys(xs, key)
    ensures Members(xs, key, k) == []
  {
    KeysCover(xs, key);
    MembersExact(xs, key, k);
  }

  /** The keys of a prefix of the input are a prefix of the keys. */
  lemma {:induction false} KeysOfPrefix<T>(xs: seq<T>, key: T -> string, p: nat)
    requires p <= |xs|
    ensures |Keys(xs[..p], key)| <= |Keys(xs, key)|
    ensures Keys(xs[..p], key) == Keys(xs, key)[..|Keys(xs[..p], key)|]
    decreases |xs|
  {
    if p < |xs| {
      var init := xs[..|xs| - 1];
      assert init[..p] == xs[..p];
      KeysOfPrefix(init, key, p);
    } else {
      assert xs[..p] == xs;
    }
  }

  /** Groups appear in order of first appearance: when element `p` is the
      first one with its key, its group comes right after the groups of all
      keys seen before position `p`. */
  lemma FirstAppearance<T>(xs: seq<T>, key: T -> string, p: nat)
    requires p < |xs|
    requires key(xs[p]) !in Keys(xs[..p], key)
    ensures |Keys(xs[..p], key)| < |Keys(xs, key)|
    ensures Keys(xs, key)[|Keys(xs[..p], key)|] == key(xs[p])
  {
    assert xs[..p + 1][..p] == xs[..p];
    assert Keys(xs[..p + 1], key) == Keys(xs[..p], key) + [key(xs[p])];
    KeysOfPrefix(xs, key, p + 1);
  }

  /** Adding one element at the end grows the total of the distinct groups
      `ks` by one when its key is among them, and leaves it alone otherwise. */
  lemma {:induction false} TotalSizeSnoc<T>(xs: seq<T>, x: T, key: T -> string, ks: seq<string>)
    requires Distinct(ks)
    ensures TotalSize(xs + [x], key, ks) == TotalSize(xs, key, ks) + (if key(x) in ks then 1 else 0)
    decreases |ks|
  {
    if ks != [] {
      var front := ks[..|ks| - 1];
      TotalSizeSnoc(xs, x, key, front);
      assert (xs + [x])[..|xs|] == xs;
      assert key(x) in ks <==> key(x) in front || key(x) == ks[|ks| - 1];
      if key(x) == ks[|ks| - 1] {
        assert key(x) !in front;
      }
    }
  }

  /** Grouping neither loses nor duplicates an element: the group sizes add
      up to the length of the input. */
  lemma {:induction false} CountPreserved<T>(xs: seq<T>, key: T -> string)
    ensures TotalSize(xs, key, Keys(xs, key)) == |xs|
    decreases |xs|
  {
    if xs != [] {
      var init := xs[..|xs| - 1];
      var x := xs[|xs| - 1];
      var ks := Keys(init, key);
      assert xs == init + [x];
      CountPreserved(init, key);
      KeysDistinct(init, key);
      if key(x) in ks {
        TotalSizeSnoc(init, x, key, ks);
      } else {
        TotalSizeSnoc(init, x, key, ks);
        NoKeyNoMembers(init, key, key(x));
        assert ks + [key(x)] == Keys(xs, key);
        assert (ks + [key(x)])[..|ks|] == ks;
        assert Members(xs, key, key(x)) == [x];
      }
    }
  }

  /** Extending the input by its next element: the keys gain that element's
      key when it is new, and only the group of that key gains the element. */
  lemma GroupStep<T>(xs: seq<T>, key: T -> string, n: nat)
    requires n < |xs|
    ensures Keys(xs[..n + 1], key) ==
      if key(xs[n]) in Keys(xs[..n], key) then Keys(xs[..n], key) else Keys(xs[..n], key) + [key(xs[n])]
    ensures forall c :: (Members(xs[..n + 1], key, c) ==
      Members(xs[..n], key, c) + (if key(xs[n]) == c then [xs[n]] else []))
  {
    assert xs[..n + 1][..n] == xs[..n];
  }

  /** `Array.prototype.find` on the categories of the groups built so far:
      the first group whose category is `c`, or `|groups|` when none is. */
  method Find<G>(groups: seq<G>, category: G -> string, c: string) returns (k: nat)
    ensures k <= |groups|
    ensures k < |groups| ==> category(groups[k]) == c
    ensures forall j :: 0 <= j < k ==> category(groups[j]) != c
  {
    k := 0;
    while k < |groups| && category(groups[k]) != c
      invariant k <= |groups|
      invariant forall j :: 0 <= j < k ==> category(groups[j]) != c
    {
      k := k + 1;
    }
  }
}

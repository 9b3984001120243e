/** The forest of blocks the stream field edits, and how an index path
    addresses one list of siblings inside it. */
module Tree {
  import opened Splice

  /** One block record. `kind` is the record's `type` field. */
  datatype Block = Block(id: string, title: string, kind: string, closed: bool, children: seq<Block>)

  /** The ordered root blocks. */
  type Forest = seq<Block>

  /** Indices followed from the root list downwards. */
  type Path = seq<nat>

  function Parent(p: Path): Path
    requires |p| > 0
  {
    p[..|p| - 1]
  }

  function Last(p: Path): nat
    requires |p| > 0
  {
    p[|p| - 1]
  }

  predicate IsPrefix(a: Path, b: Path) {
    |a| <= |b| && b[..|a|] == a
  }

  /** A path is its part before index `n`, the index at `n`, and the rest. */
  lemma PathSplit(p: Path, n: nat)
    requires n < |p|
    ensures p == p[..n] + [p[n]] + p[n + 1..]
    ensures p == p[..n] + ([p[n]] + p[n + 1..])
  {
  }

  /** Every index of `p` names an existing block of the list it is applied to. */
  predicate ValidPath(f: Forest, p: Path)
    decreases |p|
  {
    |p| == 0 || (p[0] < |f| && ValidPath(f[p[0]].children, p[1..]))
  }

  /** A path that names a block (the root list itself is not a block): its
      parent path reaches a list and its last index falls inside it. */
  predicate IsBlockPath(f: Forest, p: Path) {
    |p| > 0 && ValidPath(f, Parent(p)) && Last(p) < |ListAt(f, Parent(p))|
  }

  /** The list reached by `p`: the root list for the empty path, otherwise
      the children of the block `p` names. */
  function ListAt(f: Forest, p: Path): Forest
    requires ValidPath(f, p)
    decreases |p|
  {
    if |p| == 0 then f else ListAt(f[p[0]].children, p[1..])
  }

  /** Following `q` and then `s` is following `q + s`. */
  lemma {:induction false} ListAtConcat(f: Forest, q: Path, s: Path)
    requires ValidPath(f, q)
    ensures ValidPath(f, q + s) <==> ValidPath(ListAt(f, q), s)
    ensures ValidPath(f, q + s) ==> ListAt(f, q + s) == ListAt(ListAt(f, q), s)
    decreases |q|
  {
    if |q| == 0 {
      assert q + s == s;
    } else {
      assert (q + s)[0] == q[0];
      assert (q + s)[1..] == q[1..] + s;
      ListAtConcat(f[q[0]].children, q[1..], s);
    }
  }

  /** A non-empty path is valid exactly when it names a block, and the list
      it reaches is that block's children. */
  lemma BlockPathValid(f: Forest, p: Path)
    requires |p| > 0
    ensures IsBlockPath(f, p) <==> ValidPath(f, p)
    ensures IsBlockPath(f, p) ==> ListAt(f, p) == ListAt(f, Parent(p))[Last(p)].children
  {
    assert p == Parent(p) + [Last(p)];
    if ValidPath(f, p) {
      ValidPrefix(f, p, |p| - 1);
    }
    if ValidPath(f, Parent(p)) {
      ListAtConcat(f, Parent(p), [Last(p)]);
    }
  }

  /** Extending a valid path by an index of the list it reaches. */
  lemma ExtendPath(f: Forest, q: Path, k: nat)
    requires ValidPath(f, q) && k < |ListAt(f, q)|
    ensures Parent(q + [k]) == q && Last(q + [k]) == k
    ensures IsBlockPath(f, q + [k]) && ValidPath(f, q + [k])
    ensures ListAt(f, q + [k]) == ListAt(f, q)[k].children
  {
    assert Parent(q + [k]) == q;
    BlockPathValid(f, q + [k]);
  }

  /** Every prefix of a valid path is valid. */
  lemma {:induction false} ValidPrefix(f: Forest, p: Path, n: nat)
    requires ValidPath(f, p) && n <= |p|
    ensures ValidPath(f, p[..n])
    decreases n
  {
    if n > 0 {
      assert p[..n][0] == p[0];
      assert p[..n][1..] == p[1..][..n - 1];
      ValidPrefix(f[p[0]].children, p[1..], n - 1);
    }
  }

  /** The block a block path names. */
  function NodeAt(f: Forest, p: Path): (b: Block)
    requires IsBlockPath(f, p)
    ensures ValidPath(f, p) && b.children == ListAt(f, p)
  {
    BlockPathValid(f, p);
    ListAt(f, Parent(p))[Last(p)]
  }

  /** `f` with the list reached by `q` replaced by `l`: every block on the way
      down gets a new `children` field, nothing else changes. */
  function SetListAt(f: Forest, q: Path, l: Forest): (r: Forest)
    requires ValidPath(f, q)
    ensures ValidPath(r, q) && ListAt(r, q) == l
    ensures |q| > 0 ==> |r| == |f|
    decreases |q|
  {
    if |q| == 0 then l
    else f[q[0] := f[q[0]].(children := SetListAt(f[q[0]].children, q[1..], l))]
  }

  /** The result of an edit confined to the list at `q`. */
  predicate OnlyListChanged(f: Forest, r: Forest, q: Path) {
    ValidPath(f, q) && ValidPath(r, q) && r == SetListAt(f, q, ListAt(r, q))
  }

  /** Writing back the list that is already there changes nothing. */
  lemma {:induction false} SetListAtSame(f: Forest, q: Path)
    requires ValidPath(f, q)
    ensures SetListAt(f, q, ListAt(f, q)) == f
    decreases |q|
  {
    if |q| > 0 {
      SetListAtSame(f[q[0]].children, q[1..]);
    }
  }

  /** A second write to the same list overrides the first. */
  lemma {:induction false} SetListAtTwice(f: Forest, q: Path, l1: Forest, l2: Forest)
    requires ValidPath(f, q)
    ensures SetListAt(SetListAt(f, q, l1), q, l2) == SetListAt(f, q, l2)
    decreases |q|
  {
    if |q| > 0 {
      SetListAtTwice(f[q[0]].children, q[1..], l1, l2);
    }
  }

  /** Lists below the replaced one are those of the new list. */
  lemma SetListAtBelow(f: Forest, q: Path, l: Forest, s: Path)
    requires ValidPath(f, q) && ValidPath(l, s)
    ensures ValidPath(SetListAt(f, q, l), q + s)
    ensures ListAt(SetListAt(f, q, l), q + s) == ListAt(l, s)
  {
    ListAtConcat(SetListAt(f, q, l), q, s);
  }

  /** A list reached by a path that leaves `q` at some index is untouched. */
  lemma {:induction false} SetListAtAside(f: Forest, q: Path, l: Forest, p: Path)
    requires ValidPath(f, q) && ValidPath(f, p)
    requires !IsPrefix(p, q) && !IsPrefix(q, p)
    ensures ValidPath(SetListAt(f, q, l), p)
    ensures ListAt(SetListAt(f, q, l), p) == ListAt(f, p)
    decreases |q|
  {
    var r := SetListAt(f, q, l);
    assert |p| > 0 && |q| > 0;
    if p[0] != q[0] {
      assert r[p[0]] == f[p[0]];
    } else {
      assert !IsPrefix(p[1..], q[1..]);
      assert !IsPrefix(q[1..], p[1..]);
      SetListAtAside(f[q[0]].children, q[1..], l, p[1..]);
    }
  }

  /** On each list above the replaced one only the block on the way down
      changes, and of that block only its children. */
  lemma {:induction false} SetListAtAbove(f: Forest, q: Path, l: Forest, n: nat)
    requires ValidPath(f, q) && n < |q|
    ensures ValidPath(f, q[..n]) && ValidPath(f, q[..n + 1])
    ensures ValidPath(SetListAt(f, q, l), q[..n]) && ValidPath(SetListAt(f, q, l), q[..n + 1])
    ensures q[n] < |ListAt(f, q[..n])|
    ensures ListAt(SetListAt(f, q, l), q[..n])
         == ListAt(f, q[..n])[q[n] := ListAt(f, q[..n])[q[n]].(children := ListAt(SetListAt(f, q, l), q[..n + 1]))]
    decreases n
  {
    var r := SetListAt(f, q, l);
    ValidPrefix(f, q, n);
    ValidPrefix(f, q, n + 1);
    ValidPrefix(r, q, n);
    ValidPrefix(r, q, n + 1);
    if n == 0 {
      assert q[..0] == [] && q[..1] == [q[0]];
      assert ListAt(r, [q[0]]) == ListAt(r[q[0]].children, []);
    } else {
      SetListAtAbove(f[q[0]].children, q[1..], l, n - 1);
      assert q[..n][0] == q[0] && q[..n][1..] == q[1..][..n - 1];
      assert q[..n + 1][0] == q[0] && q[..n + 1][1..] == q[1..][..n];
    }
  }

  /** Replacing a list deep below `q` is replacing the list at `q` by itself
      with that deeper list replaced. */
  lemma {:induction false} SetListAtConcat(f: Forest, q: Path, s: Path, l: Forest)
    requires ValidPath(f, q + s)
    ensures ValidPath(f, q) && ValidPath(ListAt(f, q), s)
    ensures SetListAt(f, q + s, l) == SetListAt(f, q, SetListAt(ListAt(f, q), s, l))
    decreases |q|
  {
    ValidPrefix(f, q + s, |q|);
    assert (q + s)[..|q|] == q;
    ListAtConcat(f, q, s);
    if |q| == 0 {
      assert q + s == s;
    } else {
      assert (q + s)[0] == q[0];
      assert (q + s)[1..] == q[1..] + s;
      SetListAtConcat(f[q[0]].children, q[1..], s, l);
    }
  }

  /** After a write below `q`, the list at `q` is the old one with that
      deeper write applied. */
  lemma SetListAtDeeper(f: Forest, q: Path, s: Path, l: Forest)
    requires ValidPath(f, q + s)
    ensures ValidPath(f, q) && ValidPath(ListAt(f, q), s)
    ensures ValidPath(SetListAt(f, q + s, l), q)
    ensures ListAt(SetListAt(f, q + s, l), q) == SetListAt(ListAt(f, q), s, l)
  {
    SetListAtConcat(f, q, s, l);
  }

  /** A write to the list at `q` overrides an earlier write below it. */
  lemma SetListAtBelowOverridden(f: Forest, q: Path, s: Path, l: Forest, m: Forest)
    requires ValidPath(f, q + s)
    ensures ValidPath(f, q) && ValidPath(SetListAt(f, q + s, l), q)
    ensures SetListAt(SetListAt(f, q + s, l), q, m) == SetListAt(f, q, m)
  {
    SetListAtConcat(f, q, s, l);
    SetListAtTwice(f, q, SetListAt(ListAt(f, q), s, l), m);
  }

  /** A write below `q` after a write at `q` merges into that first write. */
  lemma SetListAtMerged(f: Forest, q: Path, l: Forest, s: Path, m: Forest)
    requires ValidPath(f, q) && ValidPath(l, s)
    ensures ValidPath(SetListAt(f, q, l), q + s)
    ensures SetListAt(SetListAt(f, q, l), q + s, m) == SetListAt(f, q, SetListAt(l, s, m))
  {
    var g := SetListAt(f, q, l);
    SetListAtBelow(f, q, l, s);
    SetListAtConcat(g, q, s, m);
    SetListAtTwice(f, q, l, SetListAt(l, s, m));
  }

  /** Writes to two lists neither of which contains the other are
      independent: either order gives the same forest. */
  lemma {:induction false} SetListAtCommute(f: Forest, q1: Path, l1: Forest, q2: Path, l2: Forest)
    requires ValidPath(f, q1) && ValidPath(f, q2)
    requires !IsPrefix(q1, q2) && !IsPrefix(q2, q1)
    ensures ValidPath(SetListAt(f, q1, l1), q2) && ValidPath(SetListAt(f, q2, l2), q1)
    ensures SetListAt(SetListAt(f, q1, l1), q2, l2) == SetListAt(SetListAt(f, q2, l2), q1, l1)
    decreases |q1|
  {
    SetListAtAside(f, q1, l1, q2);
    SetListAtAside(f, q2, l2, q1);
    assert |q1| > 0 && |q2| > 0;
    if q1[0] == q2[0] {
      assert !IsPrefix(q1[1..], q2[1..]);
      assert !IsPrefix(q2[1..], q1[1..]);
      SetListAtCommute(f[q1[0]].children, q1[1..], l1, q2[1..], l2);
    }
  }

  /** Number of blocks in a block's subtree, itself included. */
  function Size(b: Block): nat
    decreases b
  {
    1 + ForestSize(b.children)
  }

  /** Number of blocks in a forest, descendants included. */
  function ForestSize(f: Forest): nat
    decreases f
  {
    if |f| == 0 then 0 else Size(f[0]) + ForestSize(f[1..])
  }

  lemma {:induction false} ForestSizeConcat(a: Forest, b: Forest)
    ensures ForestSize(a + b) == ForestSize(a) + ForestSize(b)
    decreases |a|
  {
    if |a| > 0 {
      assert (a + b)[0] == a[0];
      assert (a + b)[1..] == a[1..] + b;
      ForestSizeConcat(a[1..], b);
    } else {
      assert a + b == b;
    }
  }

  lemma ForestSizeSplit(a: Forest, b: Block, c: Forest)
    ensures ForestSize(a + [b] + c) == ForestSize(a) + Size(b) + ForestSize(c)
  {
    ForestSizeConcat(a + [b], c);
    ForestSizeConcat(a, [b]);
    assert [b][1..] == [];
  }

  lemma ForestSizeUpdate(f: Forest, k: nat, b: Block)
    requires k < |f|
    ensures ForestSize(f[k := b]) + Size(f[k]) == ForestSize(f) + Size(b)
  {
    var a, c := f[..k], f[k + 1..];
    assert f == a + [f[k]] + c;
    assert f[k := b] == a + [b] + c;
    ForestSizeSplit(a, f[k], c);
    ForestSizeSplit(a, b, c);
  }

  lemma ForestSizeRemove(f: Forest, k: nat)
    requires k < |f|
    ensures ForestSize(Remove(f, k)) + Size(f[k]) == ForestSize(f)
  {
    var a, c := f[..k], f[k + 1..];
    RemoveSlices(f, k);
    ForestSizeSplit(a, f[k], c);
    ForestSizeConcat(a, c);
  }

  lemma ForestSizeInsert(f: Forest, k: nat, b: Block)
    requires k <= |f|
    ensures ForestSize(Insert(f, k, b)) == ForestSize(f) + Size(b)
  {
    var a, c := f[..k], f[k..];
    InsertSlices(f, k, b);
    ForestSizeSplit(a, b, c);
    ForestSizeConcat(a, c);
  }

  /** Replacing one list changes the block count by the difference of the
      two lists' counts. */
  lemma {:induction false} SetListAtSize(f: Forest, q: Path, l: Forest)
    requires ValidPath(f, q)
    ensures ForestSize(SetListAt(f, q, l)) + ForestSize(ListAt(f, q)) == ForestSize(f) + ForestSize(l)
    decreases |q|
  {
    if |q| > 0 {
      var c := f[q[0]].children;
      var c' := SetListAt(c, q[1..], l);
      SetListAtSize(c, q[1..], l);
      ForestSizeUpdate(f, q[0], f[q[0]].(children := c'));
    }
  }
}

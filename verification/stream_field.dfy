/** The `StreamField` store: the edits the block editor applies to its
    forest. Each edit takes the current forest and returns the forest that
    replaces it. */
module StreamField {
  import opened Wrappers
  import opened Splice
  import opened Tree
  import opened DroppableId

  lemma AllPrefixesValid(f: Forest, p: Path)
    requires ValidPath(f, p)
    ensures forall n :: 0 <= n <= |p| ==> ValidPath(f, p[..n])
  {
    forall n | 0 <= n <= |p|
      ensures ValidPath(f, p[..n])
    {
      ValidPrefix(f, p, n);
    }
  }

  /** `getBlock`: walks `p` index by index from the root list. For a block
      path it yields the list holding the block and the block; for the empty
      path it yields neither (the source's `undefined` and `null`). The list
      a drop lands in is the block's children, or the root list when there
      is no block. */
  method GetBlock(f: Forest, p: Path) returns (parent: Option<Forest>, block: Option<Block>)
    requires ValidPath(f, p)
    ensures parent.None? <==> |p| == 0
    ensures block.None? <==> |p| == 0
    ensures |p| > 0 ==> IsBlockPath(f, p) && parent == Some(ListAt(f, Parent(p))) && block == Some(NodeAt(f, p))
    ensures |p| > 0 ==> Last(p) < |parent.value| && parent.value[Last(p)] == block.value
    ensures (if block.None? then f else block.value.children) == ListAt(f, p)
  {
    AllPrefixesValid(f, p);
    var list := f;
    parent, block := None, None;
    var i := 0;
    while i < |p|
      invariant 0 <= i <= |p|
      invariant list == ListAt(f, p[..i])
      invariant i == 0 ==> parent.None? && block.None?
      invariant i > 0 ==> IsBlockPath(f, p[..i]) && parent == Some(ListAt(f, p[..i - 1])) && block == Some(NodeAt(f, p[..i]))
    {
      assert p[..i + 1] == p[..i] + [p[i]];
      BlockPathValid(f, p[..i + 1]);
      parent := Some(list);
      block := Some(list[p[i]]);
      list := list[p[i]].children;
      i := i + 1;
    }
    assert p[..|p|] == p;
    if |p| > 0 {
      assert Parent(p) == p[..|p| - 1];
    }
  }

  /** `moveHandler`: shift the block at `p` by `offset` places among its
      siblings. A move that would leave the list is ignored. */
  function Move(f: Forest, p: Path, offset: int): (r: Forest)
    requires IsBlockPath(f, p)
    ensures OnlyListChanged(f, r, Parent(p))
    ensures var l, i := ListAt(f, Parent(p)), Last(p);
            i + offset < 0 || i + offset >= |l| ==> r == f
    ensures var l, i := ListAt(f, Parent(p)), Last(p);
            0 <= i + offset < |l| ==>
              && ListAt(r, Parent(p)) == Relocate(l, i, i + offset)
              && |ListAt(r, Parent(p))| == |l|
              && multiset(ListAt(r, Parent(p))) == multiset(l)
              && ListAt(r, Parent(p))[i + offset] == l[i]
    ensures ForestSize(r) == ForestSize(f)
  {
    var q, i := Parent(p), Last(p);
    var l := ListAt(f, q);
    var j := i + offset;
    if j <= -1 || j >= |l| then
      SetListAtSame(f, q);
      f
    else
      var m := Relocate(l, i, j);
      SetListAtSize(f, q, m);
      ForestSizeRemove(l, i);
      ForestSizeInsert(Remove(l, i), j, l[i]);
      SetListAt(f, q, m)
  }

  /** `moveUpHandler`: exchange the block with its previous sibling; the
      first sibling stays where it is. */
  function MoveUp(f: Forest, p: Path): (r: Forest)
    requires IsBlockPath(f, p)
    ensures OnlyListChanged(f, r, Parent(p))
    ensures Last(p) == 0 ==> r == f
    ensures var l, i := ListAt(f, Parent(p)), Last(p);
            i > 0 ==> ListAt(r, Parent(p)) == l[i - 1 := l[i]][i := l[i - 1]]
  {
    if Last(p) == 0 then Move(f, p, -1)
    else
      RelocateNeighbour(ListAt(f, Parent(p)), Last(p) - 1);
      Move(f, p, -1)
  }

  /** `moveDownHandler`: exchange the block with its next sibling; the last
      sibling stays where it is. */
  function MoveDown(f: Forest, p: Path): (r: Forest)
    requires IsBlockPath(f, p)
    ensures OnlyListChanged(f, r, Parent(p))
    ensures Last(p) == |ListAt(f, Parent(p))| - 1 ==> r == f
    ensures var l, i := ListAt(f, Parent(p)), Last(p);
            i + 1 < |l| ==> ListAt(r, Parent(p)) == l[i := l[i + 1]][i + 1 := l[i]]
  {
    if Last(p) + 1 == |ListAt(f, Parent(p))| then Move(f, p, 1)
    else
      RelocateNeighbour(ListAt(f, Parent(p)), Last(p));
      Move(f, p, 1)
  }

  /** `duplicateHandler`: a copy of the block, with its whole subtree, goes
      into the list immediately before the original. */
  function Duplicate(f: Forest, p: Path): (r: Forest)
    requires IsBlockPath(f, p)
    ensures OnlyListChanged(f, r, Parent(p))
    ensures var l, i, m := ListAt(f, Parent(p)), Last(p), ListAt(r, Parent(p));
            && |m| == |l| + 1
            && m[i] == l[i] && m[i + 1] == l[i]
            && (forall k :: 0 <= k < i ==> m[k] == l[k])
            && (forall k :: i < k < |l| ==> m[k + 1] == l[k])
    ensures ForestSize(r) == ForestSize(f) + Size(NodeAt(f, p))
  {
    var q, i := Parent(p), Last(p);
    var l := ListAt(f, q);
    var m := Insert(l, i, l[i]);
    SetListAtSize(f, q, m);
    ForestSizeInsert(l, i, l[i]);
    SetListAt(f, q, m)
  }

  /** `addHandler` (the "+" under a block): the same edit as `Duplicate`;
      since the copy equals the original, the list reads as if the copy had
      been added after it. */
  function Add(f: Forest, p: Path): (r: Forest)
    requires IsBlockPath(f, p)
    ensures OnlyListChanged(f, r, Parent(p))
    ensures var l, i := ListAt(f, Parent(p)), Last(p);
            ListAt(r, Parent(p)) == Insert(l, i + 1, l[i])
  {
    CopyBeforeIsCopyAfter(ListAt(f, Parent(p)), Last(p));
    Duplicate(f, p)
  }

  /** The "+" at the top of a list: `addHandler` on the list's last block,
      so the list gains a copy of its last block at its end. An empty list
      has no last block (the source fails there). */
  function AddToEnd(f: Forest, q: Path): (r: Forest)
    requires ValidPath(f, q) && |ListAt(f, q)| > 0
    ensures OnlyListChanged(f, r, q)
    ensures var l := ListAt(f, q);
            ListAt(r, q) == l + [l[|l| - 1]]
  {
    var l := ListAt(f, q);
    ExtendPath(f, q, |l| - 1);
    var r := Add(f, q + [|l| - 1]);
    assert Insert(l, |l|, l[|l| - 1]) == l + [l[|l| - 1]];
    r
  }

  /** `deleteHandler`: the block and its subtree leave the list. */
  function Delete(f: Forest, p: Path): (r: Forest)
    requires IsBlockPath(f, p)
    ensures OnlyListChanged(f, r, Parent(p))
    ensures var l, i, m := ListAt(f, Parent(p)), Last(p), ListAt(r, Parent(p));
            && |m| == |l| - 1
            && (forall k :: 0 <= k < i ==> m[k] == l[k])
            && (forall k :: i <= k < |m| ==> m[k] == l[k + 1])
            && multiset(m) + multiset{l[i]} == multiset(l)
    ensures ForestSize(r) + Size(NodeAt(f, p)) == ForestSize(f)
  {
    var q, i := Parent(p), Last(p);
    var l := ListAt(f, q);
    var m := Remove(l, i);
    SetListAtSize(f, q, m);
    ForestSizeRemove(l, i);
    SetListAt(f, q, m)
  }

  /** `openHandler` and `closeHandler`: set the block's `closed` flag. */
  function SetClosed(f: Forest, p: Path, closed: bool): (r: Forest)
    requires IsBlockPath(f, p)
    ensures OnlyListChanged(f, r, Parent(p))
    ensures IsBlockPath(r, p) && NodeAt(r, p) == NodeAt(f, p).(closed := closed)
    ensures var l, i, m := ListAt(f, Parent(p)), Last(p), ListAt(r, Parent(p));
            |m| == |l| && forall k :: 0 <= k < |l| && k != i ==> m[k] == l[k]
    ensures ForestSize(r) == ForestSize(f)
  {
    var q, i := Parent(p), Last(p);
    var l := ListAt(f, q);
    var m := l[i := l[i].(closed := closed)];
    SetListAtSize(f, q, m);
    ForestSizeUpdate(l, i, m[i]);
    SetListAt(f, q, m)
  }

  function Open(f: Forest, p: Path): (r: Forest)
    requires IsBlockPath(f, p)
    ensures OnlyListChanged(f, r, Parent(p))
    ensures IsBlockPath(r, p) && !NodeAt(r, p).closed
    ensures NodeAt(r, p).(closed := NodeAt(f, p).closed) == NodeAt(f, p)
    ensures var l, i, m := ListAt(f, Parent(p)), Last(p), ListAt(r, Parent(p));
            |m| == |l| && forall k :: 0 <= k < |l| && k != i ==> m[k] == l[k]
  {
    SetClosed(f, p, false)
  }

  function Close(f: Forest, p: Path): (r: Forest)
    requires IsBlockPath(f, p)
    ensures OnlyListChanged(f, r, Parent(p))
    ensures IsBlockPath(r, p) && NodeAt(r, p).closed
    ensures NodeAt(r, p).(closed := NodeAt(f, p).closed) == NodeAt(f, p)
    ensures var l, i, m := ListAt(f, Parent(p)), Last(p), ListAt(r, Parent(p));
            |m| == |l| && forall k :: 0 <= k < |l| && k != i ==> m[k] == l[k]
  {
    SetClosed(f, p, true)
  }

  /** Moving a block up and then moving it down again restores the forest. */
  lemma MoveUpThenDown(f: Forest, p: Path)
    requires IsBlockPath(f, p) && Last(p) > 0
    ensures IsBlockPath(MoveUp(f, p), Parent(p) + [Last(p) - 1])
    ensures MoveDown(MoveUp(f, p), Parent(p) + [Last(p) - 1]) == f
  {
    var q, i := Parent(p), Last(p);
    var l := ListAt(f, q);
    var f1 := MoveUp(f, p);
    var p1 := q + [i - 1];
    assert Parent(p1) == q && Last(p1) == i - 1;
    assert ListAt(f1, q) == Relocate(l, i, i - 1);
    RelocateBack(l, i, i - 1);
    SetListAtTwice(f, q, Relocate(l, i, i - 1), l);
    SetListAtSame(f, q);
  }

  /** Deleting a block right after duplicating it restores the forest. */
  lemma DeleteUndoesDuplicate(f: Forest, p: Path)
    requires IsBlockPath(f, p)
    ensures IsBlockPath(Duplicate(f, p), p)
    ensures Delete(Duplicate(f, p), p) == f
  {
    var q, i := Parent(p), Last(p);
    var l := ListAt(f, q);
    var m := Insert(l, i, l[i]);
    assert Duplicate(f, p) == SetListAt(f, q, m);
    RemoveInserted(l, i, l[i]);
    SetListAtTwice(f, q, m, l);
    SetListAtSame(f, q);
  }

  /** Closing is idempotent. */
  lemma CloseIdempotent(f: Forest, p: Path)
    requires IsBlockPath(f, p)
    ensures Close(Close(f, p), p) == Close(f, p)
  {
    var q, i := Parent(p), Last(p);
    var l := ListAt(f, q);
    var m := l[i := l[i].(closed := true)];
    assert Close(f, p) == SetListAt(f, q, m);
    assert m[i := m[i].(closed := true)] == m;
    SetListAtTwice(f, q, m, m);
  }

  /** Opening a block that was open before it was closed restores the forest. */
  lemma OpenUndoesClose(f: Forest, p: Path)
    requires IsBlockPath(f, p) && !NodeAt(f, p).closed
    ensures Open(Close(f, p), p) == f
  {
    var q, i := Parent(p), Last(p);
    var l := ListAt(f, q);
    var m := l[i := l[i].(closed := true)];
    assert Close(f, p) == SetListAt(f, q, m);
    assert m[i := m[i].(closed := false)] == l;
    SetListAtTwice(f, q, m, l);
    SetListAtSame(f, q);
  }

  /** Where the destination list sits once the dragged block has left the
      source list `sp` at index `si`. The source resolves the destination
      list before removing the block, so only a destination below a later
      sibling of the dragged block moves up by one index. A destination
      inside the dragged block itself has no place in the forest any more. */
  function RebaseAfterRemoval(sp: Path, si: nat, dp: Path): (r: Option<Path>)
    ensures r.None? <==> IsPrefix(sp + [si], dp)
    ensures r.Some? ==> |r.value| == |dp|
  {
    if |sp| < |dp| && dp[..|sp|] == sp then
      var k := dp[|sp|];
      assert (dp[..|sp| + 1] == sp + [si]) <==> (k == si) by {
        assert dp[..|sp| + 1] == dp[..|sp|] + [k];
      }
      if k == si then None
      else if k < si then Some(dp)
      else Some(sp + [k - 1] + dp[|sp| + 1..])
    else
      Some(dp)
  }

  /** The list a rebased destination path reaches after the removal is the
      list the original path reached before it: untouched, unless it is the
      source list or one of its ancestors, whose path does not move. */
  lemma RebaseReachesSameList(f: Forest, sp: Path, si: nat, dp: Path)
    requires ValidPath(f, sp) && si < |ListAt(f, sp)| && ValidPath(f, dp)
    requires RebaseAfterRemoval(sp, si, dp).Some?
    ensures var f1, dq := SetListAt(f, sp, Remove(ListAt(f, sp), si)), RebaseAfterRemoval(sp, si, dp).value;
            && ValidPath(f1, dq)
            && (IsPrefix(dp, sp) ==> dq == dp)
            && (!IsPrefix(dp, sp) ==> ListAt(f1, dq) == ListAt(f, dp))
  {
    var l := ListAt(f, sp);
    var rm := Remove(l, si);
    var f1 := SetListAt(f, sp, rm);
    var dq := RebaseAfterRemoval(sp, si, dp).value;
    if |sp| < |dp| && dp[..|sp|] == sp {
      var k := dp[|sp|];
      var rest := dp[|sp| + 1..];
      var k': nat := if k < si then k else k - 1;
      SiblingRebase(sp, si, dp);
      assert ([k] + rest)[1..] == rest && ([k'] + rest)[1..] == rest;
      ListAtConcat(f, sp, [k] + rest);
      assert rm[k'] == l[k];
      ListAtConcat(f1, sp, [k'] + rest);
    } else if IsPrefix(dp, sp) {
      ValidPrefix(f1, sp, |dp|);
    } else {
      assert !IsPrefix(sp, dp);
      SetListAtAside(f, sp, rm, dp);
    }
  }

  /** The drop applied to paths: take the block at `si` out of the list at
      `sp`, then splice it into the list `dp` reached before the removal, at
      `di` (JavaScript's `splice` puts a start past the end at the end). */
  function Reorder(f: Forest, sp: Path, si: nat, dp: Path, di: nat): (r: Forest)
    requires ValidPath(f, sp) && si < |ListAt(f, sp)| && ValidPath(f, dp)
    ensures RebaseAfterRemoval(sp, si, dp).Some? ==> ForestSize(r) == ForestSize(f)
    ensures RebaseAfterRemoval(sp, si, dp).None? ==> ForestSize(r) + Size(ListAt(f, sp)[si]) == ForestSize(f)
  {
    var l := ListAt(f, sp);
    var moved := l[si];
    var rm := Remove(l, si);
    var f1 := SetListAt(f, sp, rm);
    SetListAtSize(f, sp, rm);
    ForestSizeRemove(l, si);
    match RebaseAfterRemoval(sp, si, dp)
    case None => f1
    case Some(dq) =>
      RebaseReachesSameList(f, sp, si, dp);
      var d := ListAt(f1, dq);
      var ins := Insert(d, ClampStart(di, |d|), moved);
      SetListAtSize(f1, dq, ins);
      ForestSizeInsert(d, ClampStart(di, |d|), moved);
      SetListAt(f1, dq, ins)
  }

  /** A drop with a destination is two list writes: the source list loses
      the block, then the list at the rebased path gains it at the clamped
      index. */
  lemma ReorderWrites(f: Forest, sp: Path, si: nat, dp: Path, di: nat, dq: Path)
    requires ValidPath(f, sp) && si < |ListAt(f, sp)| && ValidPath(f, dp)
    requires RebaseAfterRemoval(sp, si, dp) == Some(dq)
    ensures var l := ListAt(f, sp);
            var f1 := SetListAt(f, sp, Remove(l, si));
            && ValidPath(f1, dq)
            && Reorder(f, sp, si, dp, di) == SetListAt(f1, dq, Insert(ListAt(f1, dq), ClampStart(di, |ListAt(f1, dq)|), l[si]))
  {
    RebaseReachesSameList(f, sp, si, dp);
  }

  /** A drop within one list relocates the block inside that list: the list
      is a permutation of itself and nothing outside it changes. */
  lemma ReorderWithinList(f: Forest, sp: Path, si: nat, di: nat)
    requires ValidPath(f, sp) && si < |ListAt(f, sp)|
    ensures var l, r := ListAt(f, sp), Reorder(f, sp, si, sp, di);
            && OnlyListChanged(f, r, sp)
            && ListAt(r, sp) == Relocate(l, si, ClampStart(di, |l| - 1))
            && multiset(ListAt(r, sp)) == multiset(l)
            && ListAt(r, sp)[ClampStart(di, |l| - 1)] == l[si]
  {
    var l := ListAt(f, sp);
    var rm := Remove(l, si);
    var f1 := SetListAt(f, sp, rm);
    assert RebaseAfterRemoval(sp, si, sp) == Some(sp);
    var m := Insert(rm, ClampStart(di, |rm|), l[si]);
    assert Reorder(f, sp, si, sp, di) == SetListAt(f1, sp, m);
    SetListAtTwice(f, sp, rm, m);
  }

  /** A drop between two lists neither of which contains the other: the
      source list loses the block and the destination list gains it. The
      result is exactly those two list writes, in either order, so nothing
      else changes: lists beside both are untouched, and on the lists above
      them only the children of the blocks on the way down differ. */
  lemma ReorderBetweenLists(f: Forest, sp: Path, si: nat, dp: Path, di: nat, other: Path)
    requires ValidPath(f, sp) && si < |ListAt(f, sp)| && ValidPath(f, dp)
    requires !IsPrefix(sp, dp) && !IsPrefix(dp, sp)
    requires ValidPath(f, other)
    requires !IsPrefix(other, sp) && !IsPrefix(sp, other) && !IsPrefix(other, dp) && !IsPrefix(dp, other)
    ensures var l, d, r := ListAt(f, sp), ListAt(f, dp), Reorder(f, sp, si, dp, di);
            && ValidPath(r, sp) && ValidPath(r, dp) && ValidPath(r, other)
            && ListAt(r, sp) == Remove(l, si)
            && ListAt(r, dp) == Insert(d, ClampStart(di, |d|), l[si])
            && ListAt(r, other) == ListAt(f, other)
            && ValidPath(SetListAt(f, sp, Remove(l, si)), dp)
            && ValidPath(SetListAt(f, dp, Insert(d, ClampStart(di, |d|), l[si])), sp)
            && r == SetListAt(SetListAt(f, sp, Remove(l, si)), dp, Insert(d, ClampStart(di, |d|), l[si]))
            && r == SetListAt(SetListAt(f, dp, Insert(d, ClampStart(di, |d|), l[si])), sp, Remove(l, si))
  {
    var l, d := ListAt(f, sp), ListAt(f, dp);
    var rm := Remove(l, si);
    var f1 := SetListAt(f, sp, rm);
    assert RebaseAfterRemoval(sp, si, dp) == Some(dp);
    SetListAtAside(f, sp, rm, dp);
    SetListAtAside(f, sp, rm, other);
    var ins := Insert(d, ClampStart(di, |d|), l[si]);
    SetListAtAside(f1, dp, ins, sp);
    SetListAtAside(f1, dp, ins, other);
    SetListAtCommute(f, sp, rm, dp, ins);
  }

  /** A drop into a list inside the dragged block itself: the block is
      attached below itself and so drops out of the forest with its subtree. */
  lemma ReorderIntoOwnSubtree(f: Forest, sp: Path, si: nat, dp: Path, di: nat)
    requires ValidPath(f, sp) && si < |ListAt(f, sp)| && ValidPath(f, dp)
    requires IsPrefix(sp + [si], dp)
    ensures var l, r := ListAt(f, sp), Reorder(f, sp, si, dp, di);
            && OnlyListChanged(f, r, sp)
            && ListAt(r, sp) == Remove(l, si)
            && ForestSize(r) + Size(l[si]) == ForestSize(f)
  {
  }

  /** A drop into a list above the source list (the root list, say, for a
      nested block). The destination list gains the block at the clamped
      index; of its old entries only the one on the way down to the source
      list changes, and only in its children. Following the way down, now
      shifted past the inserted block when it landed before it, reaches the
      source list, which has lost the block; everything below that entry is
      as before except the source list, and nothing outside the destination
      list changes. */
  lemma ReorderToAncestorList(f: Forest, sp: Path, si: nat, dp: Path, di: nat)
    requires ValidPath(f, sp) && si < |ListAt(f, sp)| && ValidPath(f, dp)
    requires |dp| < |sp| && sp[..|dp|] == dp
    ensures var l, d, k, r := ListAt(f, sp), ListAt(f, dp), sp[|dp|], Reorder(f, sp, si, dp, di);
            var c := ClampStart(di, |d|);
            var k': nat := if c <= k then k + 1 else k;
            var down, down', rest := dp + [k], dp + [k'], sp[|dp| + 1..];
            && k < |d| && c <= |d|
            && ValidPath(f, down) && ValidPath(ListAt(f, down), rest)
            && OnlyListChanged(f, r, dp) && ValidPath(r, down')
            && ListAt(r, dp) == Insert(d[k := d[k].(children := ListAt(r, down'))], c, l[si])
            && ListAt(r, down') == SetListAt(ListAt(f, down), rest, Remove(l, si))
            && ValidPath(r, down' + rest) && ListAt(r, down' + rest) == Remove(l, si)
  {
    AncestorRebase(sp, si, dp);
    ReorderWrites(f, sp, si, dp, di, dp);
    AncestorDropLists(f, sp, si, dp, di);
    AncestorDropFrame(f, sp, si, dp, di);
  }

  /** A drop into an ancestor of the source list keeps the destination path. */
  lemma AncestorRebase(sp: Path, si: nat, dp: Path)
    requires |dp| < |sp| && sp[..|dp|] == dp
    ensures sp == dp + [sp[|dp|]] + sp[|dp| + 1..] && sp == dp + ([sp[|dp|]] + sp[|dp| + 1..])
    ensures RebaseAfterRemoval(sp, si, dp) == Some(dp)
  {
    PathSplit(sp, |dp|);
  }

  /** The forest a drop into an ancestor of the source list leaves, as two
      list writes: the destination list gains the block and, of its old
      entries, only the one on the way down changes, in its children; the
      source list is reached through that entry's new index. */
  lemma AncestorDropLists(f: Forest, sp: Path, si: nat, dp: Path, di: nat)
    requires ValidPath(f, sp) && si < |ListAt(f, sp)| && ValidPath(f, dp)
    requires |dp| < |sp| && sp[..|dp|] == dp
    ensures var l, d, k := ListAt(f, sp), ListAt(f, dp), sp[|dp|];
            var f1 := SetListAt(f, sp, Remove(l, si));
            var c := ClampStart(di, |d|);
            var k': nat := if c <= k then k + 1 else k;
            var down, down', rest := dp + [k], dp + [k'], sp[|dp| + 1..];
            && k < |d| && c <= |d| && ValidPath(f1, dp) && |ListAt(f1, dp)| == |d|
            && var r := SetListAt(f1, dp, Insert(ListAt(f1, dp), c, l[si]));
            && ValidPath(r, down') && ValidPath(f1, down) && ListAt(r, down') == ListAt(f1, down)
            && ListAt(r, dp) == Insert(d[k := d[k].(children := ListAt(r, down'))], c, l[si])
            && ValidPath(r, down' + rest) && ListAt(r, down' + rest) == Remove(l, si)
  {
    var n := |dp|;
    var l, d, k := ListAt(f, sp), ListAt(f, dp), sp[n];
    var rest := sp[n + 1..];
    var rm := Remove(l, si);
    var f1 := SetListAt(f, sp, rm);
    PathSplit(sp, n);
    SetListAtAbove(f, sp, rm, n);
    assert sp[..n + 1] == dp + [k];
    var d1 := ListAt(f1, dp);
    var c := ClampStart(di, |d|);
    var ins := Insert(d1, c, l[si]);
    var r := SetListAt(f1, dp, ins);
    var k': nat := if c <= k then k + 1 else k;
    ReachThroughMovedEntry(f1, dp, k, ins, k', rest);
    assert d1 == d[k := d[k].(children := ListAt(r, dp + [k']))];
  }

  /** The same forest, seen from the original: only the destination list
      changed, and the entry on the way down now holds the old subtree with
      the source list shrunk. */
  lemma AncestorDropFrame(f: Forest, sp: Path, si: nat, dp: Path, di: nat)
    requires ValidPath(f, sp) && si < |ListAt(f, sp)| && ValidPath(f, dp)
    requires |dp| < |sp| && sp[..|dp|] == dp
    ensures var l, k := ListAt(f, sp), sp[|dp|];
            var f1 := SetListAt(f, sp, Remove(l, si));
            var c := ClampStart(di, |ListAt(f, dp)|);
            var k': nat := if c <= k then k + 1 else k;
            var down, down', rest := dp + [k], dp + [k'], sp[|dp| + 1..];
            && ValidPath(f1, dp) && c <= |ListAt(f1, dp)|
            && var r := SetListAt(f1, dp, Insert(ListAt(f1, dp), c, l[si]));
            && ValidPath(f, down) && ValidPath(ListAt(f, down), rest)
            && OnlyListChanged(f, r, dp) && ValidPath(r, down')
            && ListAt(r, down') == SetListAt(ListAt(f, down), rest, Remove(l, si))
  {
    var l, k, rest := ListAt(f, sp), sp[|dp|], sp[|dp| + 1..];
    var rm := Remove(l, si);
    var f1 := SetListAt(f, sp, rm);
    PathSplit(sp, |dp|);
    AncestorDropLists(f, sp, si, dp, di);
    var c := ClampStart(di, |ListAt(f, dp)|);
    DropAboveWrite(f, dp, k, rest, rm, Insert(ListAt(f1, dp), c, l[si]));
  }

  /** A write to the list at `q` after a write below its entry `k`: only the
      list at `q` differs from the original forest, and the entry's old
      children carry the deeper write. */
  lemma DropAboveWrite(f: Forest, q: Path, k: nat, rest: Path, l: Forest, m: Forest)
    requires ValidPath(f, q + [k] + rest)
    ensures ValidPath(SetListAt(f, q + [k] + rest, l), q)
    ensures OnlyListChanged(f, SetListAt(SetListAt(f, q + [k] + rest, l), q, m), q)
    ensures ValidPath(f, q + [k]) && ValidPath(ListAt(f, q + [k]), rest)
    ensures ValidPath(SetListAt(f, q + [k] + rest, l), q + [k])
    ensures ListAt(SetListAt(f, q + [k] + rest, l), q + [k]) == SetListAt(ListAt(f, q + [k]), rest, l)
  {
    assert q + [k] + rest == q + ([k] + rest);
    SetListAtBelowOverridden(f, q, [k] + rest, l, m);
    SetListAtDeeper(f, q + [k], rest, l);
  }

  /** After the list at `q` is replaced by one holding the old entry `k` at
      index `k2`, paths through `k2` reach what paths through `k` reached. */
  lemma ReachThroughMovedEntry(g: Forest, q: Path, k: nat, ins: Forest, k2: nat, rest: Path)
    requires ValidPath(g, q) && k < |ListAt(g, q)|
    requires k2 < |ins| && ins[k2] == ListAt(g, q)[k]
    requires ValidPath(g, q + [k] + rest)
    ensures ValidPath(g, q + [k]) && ValidPath(SetListAt(g, q, ins), q + [k2])
    ensures ListAt(SetListAt(g, q, ins), q + [k2]) == ListAt(g, q + [k])
    ensures ValidPath(SetListAt(g, q, ins), q + [k2] + rest)
    ensures ListAt(SetListAt(g, q, ins), q + [k2] + rest) == ListAt(g, q + [k] + rest)
  {
    var r := SetListAt(g, q, ins);
    ExtendPath(g, q, k);
    ExtendPath(r, q, k2);
    ListAtConcat(g, q + [k], rest);
    ListAtConcat(r, q + [k2], rest);
  }

  /** A drop into a list below a sibling of the dragged block. The source
      list loses the block; of its remaining entries only the one on the way
      down to the destination changes, and only in its children. The
      destination, reached through that entry's new index, gains the block
      at the clamped index; everything below that entry is as before except
      the destination, and nothing outside the source list changes. */
  lemma ReorderIntoSiblingSubtree(f: Forest, sp: Path, si: nat, dp: Path, di: nat)
    requires ValidPath(f, sp) && si < |ListAt(f, sp)| && ValidPath(f, dp)
    requires |sp| < |dp| && dp[..|sp|] == sp && dp[|sp|] != si
    ensures var l, d, k, r := ListAt(f, sp), ListAt(f, dp), dp[|sp|], Reorder(f, sp, si, dp, di);
            var k': nat := if k < si then k else k - 1;
            var down, down', rest := sp + [k], sp + [k'], dp[|sp| + 1..];
            var rm, ins := Remove(l, si), Insert(d, ClampStart(di, |d|), l[si]);
            && k < |l| && k' < |rm|
            && ValidPath(f, down) && ValidPath(ListAt(f, down), rest)
            && OnlyListChanged(f, r, sp) && ValidPath(r, down')
            && ListAt(r, sp) == rm[k' := rm[k'].(children := ListAt(r, down'))]
            && ListAt(r, down') == SetListAt(ListAt(f, down), rest, ins)
            && ValidPath(r, down' + rest) && ListAt(r, down' + rest) == ins
  {
    var l, d, k, rest := ListAt(f, sp), ListAt(f, dp), dp[|sp|], dp[|sp| + 1..];
    var k': nat := if k < si then k else k - 1;
    SiblingRebase(sp, si, dp);
    SiblingTarget(f, sp, si, dp);
    ReorderWrites(f, sp, si, dp, di, sp + [k'] + rest);
    SiblingDropFrame(f, sp, si, dp, di);
  }

  /** The forest a drop into a sibling's subtree leaves, as two list writes:
      only the source list differs from the original, and in it only the
      sibling on the way down, whose subtree holds the grown destination. */
  lemma SiblingDropFrame(f: Forest, sp: Path, si: nat, dp: Path, di: nat)
    requires ValidPath(f, sp) && si < |ListAt(f, sp)| && ValidPath(f, dp)
    requires |sp| < |dp| && dp[..|sp|] == sp && dp[|sp|] != si
    ensures var l, d, k := ListAt(f, sp), ListAt(f, dp), dp[|sp|];
            var k': nat := if k < si then k else k - 1;
            var down, down', rest := sp + [k], sp + [k'], dp[|sp| + 1..];
            var rm, ins := Remove(l, si), Insert(d, ClampStart(di, |d|), l[si]);
            && k < |l| && k' < |rm|
            && ValidPath(SetListAt(f, sp, rm), down' + rest)
            && var r := SetListAt(SetListAt(f, sp, rm), down' + rest, ins);
            && ValidPath(f, down) && ValidPath(ListAt(f, down), rest)
            && OnlyListChanged(f, r, sp) && ValidPath(r, down')
            && ListAt(r, sp) == rm[k' := rm[k'].(children := ListAt(r, down'))]
            && ListAt(r, down') == SetListAt(ListAt(f, down), rest, ins)
            && ValidPath(r, down' + rest) && ListAt(r, down' + rest) == ins
  {
    var l, d, k, rest := ListAt(f, sp), ListAt(f, dp), dp[|sp|], dp[|sp| + 1..];
    var k': nat := if k < si then k else k - 1;
    var rm := Remove(l, si);
    SiblingTarget(f, sp, si, dp);
    assert rm[k'] == l[k];
    ExtendPath(f, sp, k);
    ListAtConcat(f, sp + [k], rest);
    DropBelowWrite(f, sp, rm, k', rest, Insert(d, ClampStart(di, |d|), l[si]));
  }

  /** The destination below a sibling of the dragged block is still there
      after the removal, at the rebased path. */
  lemma SiblingTarget(f: Forest, sp: Path, si: nat, dp: Path)
    requires ValidPath(f, sp) && si < |ListAt(f, sp)| && ValidPath(f, dp)
    requires |sp| < |dp| && dp[..|sp|] == sp && dp[|sp|] != si
    ensures var l, d, k, rest := ListAt(f, sp), ListAt(f, dp), dp[|sp|], dp[|sp| + 1..];
            var k': nat := if k < si then k else k - 1;
            var f1 := SetListAt(f, sp, Remove(l, si));
            && k < |l| && dp == sp + [k] + rest && ValidPath(f, sp + [k] + rest)
            && ValidPath(f1, sp + [k'] + rest) && ListAt(f1, sp + [k'] + rest) == d
  {
    var k, rest := dp[|sp|], dp[|sp| + 1..];
    SiblingRebase(sp, si, dp);
    ListAtConcat(f, sp, [k] + rest);
    RebaseReachesSameList(f, sp, si, dp);
  }

  /** Below a sibling of the dragged block, the rebased path moves that
      sibling's index down by one when it came after the block. */
  lemma SiblingRebase(sp: Path, si: nat, dp: Path)
    requires |sp| < |dp| && dp[..|sp|] == sp && dp[|sp|] != si
    ensures var k, rest := dp[|sp|], dp[|sp| + 1..];
            var k': nat := if k < si then k else k - 1;
            && dp == sp + [k] + rest && dp == sp + ([k] + rest)
            && sp + [k'] + rest == sp + ([k'] + rest)
            && RebaseAfterRemoval(sp, si, dp) == Some(sp + [k'] + rest)
  {
    PathSplit(dp, |sp|);
  }

  /** A write below entry `k2` of the list just written at `q`: only the list
      at `q` differs from the original forest, and in it only that entry's
      children, which carry the deeper write. */
  lemma DropBelowWrite(f: Forest, q: Path, l: Forest, k2: nat, rest: Path, m: Forest)
    requires ValidPath(f, q) && k2 < |l| && ValidPath(l[k2].children, rest)
    ensures ValidPath(SetListAt(f, q, l), q + [k2] + rest)
    ensures var r := SetListAt(SetListAt(f, q, l), q + [k2] + rest, m);
            && OnlyListChanged(f, r, q) && ValidPath(r, q + [k2])
            && ListAt(r, q) == l[k2 := l[k2].(children := ListAt(r, q + [k2]))]
            && ListAt(r, q + [k2]) == SetListAt(l[k2].children, rest, m)
  {
    var s := [k2] + rest;
    assert q + [k2] + rest == q + s;
    assert s[0] == k2 && s[1..] == rest;
    var x := SetListAt(l, s, m);
    SetListAtMerged(f, q, l, s, m);
    var r := SetListAt(f, q, x);
    ExtendPath(r, q, k2);
  }

  /** How the drag-and-drop library says where a drag started or ended. */
  datatype Location = Location(droppableId: string, index: nat)

  datatype Reason = Drop | Cancel

  /** The drag-end report: `destination` is absent when the block was
      dropped outside every list. */
  datatype DropResult = DropResult(source: Location, destination: Option<Location>, reason: Reason)

  /** A drag end that `onDragEnd` returns from without an edit. */
  predicate Ignored(res: DropResult) {
    res.destination.None? || res.reason == Cancel
  }

  /** Both IDs decode, the source names an existing block and the
      destination an existing list. */
  predicate Resolvable(f: Forest, res: DropResult) {
    && res.destination.Some?
    && Decode(res.source.droppableId).Some?
    && Decode(res.destination.value.droppableId).Some?
    && ValidPath(f, Decode(res.source.droppableId).value)
    && res.source.index < |ListAt(f, Decode(res.source.droppableId).value)|
    && ValidPath(f, Decode(res.destination.value.droppableId).value)
  }

  /** `onDragEnd`: a cancelled drag or a drop outside every list leaves the
      forest as it is; otherwise the dragged block moves from the source
      list to the destination list. */
  function OnDragEnd(f: Forest, res: DropResult): (r: Forest)
    requires Ignored(res) || Resolvable(f, res)
    ensures Ignored(res) ==> r == f
    ensures !Ignored(res) && res.source.droppableId == res.destination.value.droppableId ==>
              var sp := Decode(res.source.droppableId).value;
              && ValidPath(r, sp)
              && multiset(ListAt(r, sp)) == multiset(ListAt(f, sp))
              && |ListAt(f, sp)| > 0
              && ListAt(r, sp)[ClampStart(res.destination.value.index, |ListAt(f, sp)| - 1)]
                 == ListAt(f, sp)[res.source.index]
              && OnlyListChanged(f, r, sp)
    ensures !Ignored(res) && RebaseAfterRemoval(Decode(res.source.droppableId).value, res.source.index,
                                                Decode(res.destination.value.droppableId).value).Some? ==>
              ForestSize(r) == ForestSize(f)
  {
    if Ignored(res) then f
    else
      var sp := Decode(res.source.droppableId).value;
      var dp := Decode(res.destination.value.droppableId).value;
      if sp == dp then
        ReorderWithinList(f, sp, res.source.index, res.destination.value.index);
        Reorder(f, sp, res.source.index, dp, res.destination.value.index)
      else Reorder(f, sp, res.source.index, dp, res.destination.value.index)
  }

  /** A drop reported with the IDs the lists were rendered with is the drop
      of the rendered paths. */
  lemma OnDragEndOfRenderedIds(f: Forest, sp: Path, si: nat, dp: Path, di: nat)
    requires ValidPath(f, sp) && si < |ListAt(f, sp)| && ValidPath(f, dp)
    ensures var res := DropResult(Location(Encode(sp), si), Some(Location(Encode(dp), di)), Drop);
            && Resolvable(f, res)
            && OnDragEnd(f, res) == Reorder(f, sp, si, dp, di)
  {
    DecodeEncode(sp);
    DecodeEncode(dp);
  }
}

/** The three ways the store uses `Array.prototype.splice` on a list of
    sibling blocks: remove one element, insert one element, and move one
    element to another position. Lists are immutable sequences here; each
    function returns the list the in-place splice leaves behind. */
module Splice {

  /** `s.splice(i, 1)`: the list without its element at `i`. */
  function Remove<T>(s: seq<T>, i: nat): (r: seq<T>)
    requires i < |s|
    ensures |r| == |s| - 1
    ensures forall k :: 0 <= k < i ==> r[k] == s[k]
    ensures forall k :: i <= k < |r| ==> r[k] == s[k + 1]
    ensures multiset(r) + multiset{s[i]} == multiset(s)
  {
    assert s == s[..i] + [s[i]] + s[i + 1..];
    s[..i] + s[i + 1..]
  }

  /** `s.splice(i, 0, x)`: the list with `x` placed at position `i`. */
  function Insert<T>(s: seq<T>, i: nat, x: T): (r: seq<T>)
    requires i <= |s|
    ensures |r| == |s| + 1
    ensures r[i] == x
    ensures forall k :: 0 <= k < i ==> r[k] == s[k]
    ensures forall k :: i < k < |r| ==> r[k] == s[k - 1]
    ensures multiset(r) == multiset(s) + multiset{x}
  {
    assert s == s[..i] + s[i..];
    s[..i] + [x] + s[i..]
  }

  /** The start position JavaScript's `splice` actually uses for a
      non-negative start: past the end means at the end. */
  function ClampStart(i: nat, len: nat): nat {
    if i <= len then i else len
  }

  /** `s.splice(j, 0, s.splice(i, 1)[0])`: the element at `i` is taken out
      and put back so that it ends at position `j`. */
  function Relocate<T>(s: seq<T>, i: nat, j: nat): (r: seq<T>)
    requires i < |s| && j < |s|
    ensures |r| == |s|
    ensures r[j] == s[i]
    ensures multiset(r) == multiset(s)
    ensures forall k :: 0 <= k < |s| && (k < i || j < k) && (k < j || i < k) ==> r[k] == s[k]
    ensures i <= j ==> forall k :: i <= k < j ==> r[k] == s[k + 1]
    ensures j <= i ==> forall k :: j < k <= i ==> r[k] == s[k - 1]
  {
    Insert(Remove(s, i), j, s[i])
  }

  /** `Remove` as slices: the list is its part before `i`, its element at
      `i` and the rest, and the removal drops the middle. */
  lemma RemoveSlices<T>(s: seq<T>, i: nat)
    requires i < |s|
    ensures s == s[..i] + [s[i]] + s[i + 1..]
    ensures Remove(s, i) == s[..i] + s[i + 1..]
  {
  }

  /** `Insert` as slices: the new element goes between the two parts. */
  lemma InsertSlices<T>(s: seq<T>, i: nat, x: T)
    requires i <= |s|
    ensures s == s[..i] + s[i..]
    ensures Insert(s, i, x) == s[..i] + [x] + s[i..]
  {
  }

  /** Putting an element back where it was taken out restores the list. */
  lemma InsertRemoved<T>(s: seq<T>, i: nat)
    requires i < |s|
    ensures Insert(Remove(s, i), i, s[i]) == s
  {
    RemoveSlices(s, i);
    assert Remove(s, i)[..i] == s[..i] && Remove(s, i)[i..] == s[i + 1..];
  }

  /** Removing the element just inserted restores the list. */
  lemma RemoveInserted<T>(s: seq<T>, i: nat, x: T)
    requires i <= |s|
    ensures Remove(Insert(s, i, x), i) == s
  {
  }

  /** Inserting a copy of `s[i]` before it or after it gives the same list. */
  lemma CopyBeforeIsCopyAfter<T>(s: seq<T>, i: nat)
    requires i < |s|
    ensures Insert(s, i, s[i]) == Insert(s, i + 1, s[i])
  {
  }

  /** A relocation is undone by relocating back. */
  lemma RelocateBack<T>(s: seq<T>, i: nat, j: nat)
    requires i < |s| && j < |s|
    ensures Relocate(Relocate(s, i, j), j, i) == s
  {
    var rm := Remove(s, i);
    RemoveInserted(rm, j, s[i]);
    InsertRemoved(s, i);
  }

  /** Relocating by one position exchanges two neighbours. */
  lemma RelocateNeighbour<T>(s: seq<T>, i: nat)
    requires i + 1 < |s|
    ensures Relocate(s, i, i + 1) == s[i := s[i + 1]][i + 1 := s[i]]
    ensures Relocate(s, i + 1, i) == s[i := s[i + 1]][i + 1 := s[i]]
  {
  }
}

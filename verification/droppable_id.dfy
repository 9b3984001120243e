/** Droppable and draggable identifiers: a path written as `"root-"`
    followed by its indices in decimal, joined with `"-"`, and the parser
    `onDragEnd` uses to turn such an identifier back into a path. */
module DroppableId {
  import opened Wrappers
  import opened Tree

  const Separator: char := '-'

  /** `"root"` followed by the separator. */
  const Prefix: string := "root" + [Separator]

  predicate IsDigit(c: char) {
    '0' <= c <= '9'
  }

  predicate AllDigits(s: string) {
    forall k :: 0 <= k < |s| ==> IsDigit(s[k])
  }

  function DigitChar(d: nat): (c: char)
    requires d < 10
    ensures IsDigit(c)
  {
    (d + '0' as int) as char
  }

  /** The decimal text JavaScript gives a non-negative integer: digits
      only, and no leading zero. */
  function NatToString(n: nat): (s: string)
    ensures |s| >= 1 && AllDigits(s)
    ensures s[0] == '0' ==> n == 0 && |s| == 1
    decreases n
  {
    if n < 10 then [DigitChar(n)] else NatToString(n / 10) + [DigitChar(n % 10)]
  }

  /** Value of a string of decimal digits; the empty string is worth 0, as
      `Number("")` is. */
  function DigitsValue(s: string): nat
    requires AllDigits(s)
    decreases |s|
  {
    if |s| == 0 then 0
    else DigitsValue(s[..|s| - 1]) * 10 + (s[|s| - 1] as int - '0' as int)
  }

  /** `Number(s)` on the strings a path segment can be. A segment with any
      character other than a digit is outside the modelled domain. */
  function ParseNumber(s: string): Option<nat> {
    if AllDigits(s) then Some(DigitsValue(s)) else None
  }

  /** `path.join("-")`. */
  function JoinIndices(p: Path): (s: string)
    ensures |p| == 0 <==> |s| == 0
    ensures forall k :: 0 <= k < |s| ==> IsDigit(s[k]) || s[k] == Separator
    decreases |p|
  {
    if |p| == 0 then ""
    else if |p| == 1 then NatToString(p[0])
    else NatToString(p[0]) + [Separator] + JoinIndices(p[1..])
  }

  /** `s.split("-")`: the pieces between separators; the empty string gives
      one empty piece. */
  function Split(s: string): (r: seq<string>)
    ensures |r| >= 1
    ensures forall j, k :: 0 <= j < |r| && 0 <= k < |r[j]| ==> r[j][k] != Separator
    decreases |s|
  {
    if |s| == 0 then [""]
    else
      var rest := Split(s[1..]);
      if s[0] == Separator then [""] + rest
      else [[s[0]] + rest[0]] + rest[1..]
  }

  /** `segments.map(Number)`, failing on any segment outside the domain. */
  function ParseAll(segments: seq<string>): (r: Option<Path>)
    ensures r.Some? ==> |r.value| == |segments|
    ensures r.Some? ==> forall j :: 0 <= j < |segments| ==> ParseNumber(segments[j]) == Some(r.value[j])
    ensures r.None? ==> exists j :: 0 <= j < |segments| && ParseNumber(segments[j]).None?
    decreases |segments|
  {
    if |segments| == 0 then Some([])
    else
      var n :- ParseNumber(segments[0]);
      var rest :- ParseAll(segments[1..]);
      Some([n] + rest)
  }

  /** The droppable ID of the list at `p` (and the draggable ID of the block
      at `p`). */
  function Encode(p: Path): (id: string)
    ensures |id| >= |Prefix| && id[..|Prefix|] == Prefix
    ensures |p| == 0 <==> id == Prefix
  {
    Prefix + JoinIndices(p)
  }

  /** `droppableIdToPath`: the bare prefix is the root list; otherwise the
      text after the prefix is split at separators and each piece parsed.
      An ID without the prefix is outside the modelled domain. */
  function Decode(id: string): (r: Option<Path>)
    ensures r == Some([]) <==> id == Prefix
    ensures r.Some? ==> |id| >= |Prefix| && id[..|Prefix|] == Prefix
  {
    if id == Prefix then Some([])
    else if |id| < |Prefix| || id[..|Prefix|] != Prefix then None
    else ParseAll(Split(id[|Prefix|..]))
  }

  /** The pieces joined back with the separator, as `pieces.join("-")`. */
  function JoinPieces(pieces: seq<string>): string
    requires |pieces| >= 1
    decreases |pieces|
  {
    if |pieces| == 1 then pieces[0] else pieces[0] + [Separator] + JoinPieces(pieces[1..])
  }

  /** Splitting loses nothing: joining the pieces gives the string back. */
  lemma {:induction false} JoinSplit(s: string)
    ensures JoinPieces(Split(s)) == s
    decreases |s|
  {
    if |s| > 0 {
      var rest := Split(s[1..]);
      JoinSplit(s[1..]);
      if s[0] == Separator {
        assert ([""] + rest)[1..] == rest;
        assert s == [s[0]] + s[1..];
      } else {
        var r := Split(s);
        assert r == [[s[0]] + rest[0]] + rest[1..];
        if |rest| > 1 {
          assert r[1..] == rest[1..];
        }
        assert s == [s[0]] + s[1..];
      }
    }
  }

  lemma {:induction false} DigitsValueOfNatToString(n: nat)
    ensures DigitsValue(NatToString(n)) == n
    decreases n
  {
    var s := NatToString(n);
    if n >= 10 {
      DigitsValueOfNatToString(n / 10);
      assert s[..|s| - 1] == NatToString(n / 10);
    }
  }

  /** Decimal text round-trips through `Number`. */
  lemma ParseNatToString(n: nat)
    ensures ParseNumber(NatToString(n)) == Some(n)
  {
    DigitsValueOfNatToString(n);
  }

  lemma {:induction false} SplitWithoutSeparator(s: string)
    requires forall k :: 0 <= k < |s| ==> s[k] != Separator
    ensures Split(s) == [s]
    decreases |s|
  {
    if |s| > 0 {
      SplitWithoutSeparator(s[1..]);
      assert [s[0]] + s[1..] == s;
    }
  }

  lemma {:induction false} SplitAtFirstSeparator(a: string, b: string)
    requires forall k :: 0 <= k < |a| ==> a[k] != Separator
    ensures Split(a + [Separator] + b) == [a] + Split(b)
    decreases |a|
  {
    var s := a + [Separator] + b;
    if |a| == 0 {
      assert s[1..] == b;
    } else {
      assert s[1..] == a[1..] + [Separator] + b;
      SplitAtFirstSeparator(a[1..], b);
      assert [a[0]] + a[1..] == a;
    }
  }

  lemma DigitsHaveNoSeparator(n: nat)
    ensures forall k :: 0 <= k < |NatToString(n)| ==> NatToString(n)[k] != Separator
  {
  }

  /** Parsing one more piece in front adds its value in front. */
  lemma ParseAllCons(piece: string, pieces: seq<string>, n: nat, ns: Path)
    requires ParseNumber(piece) == Some(n) && ParseAll(pieces) == Some(ns)
    ensures ParseAll([piece] + pieces) == Some([n] + ns)
  {
    var segs := [piece] + pieces;
    assert segs[0] == piece && segs[1..] == pieces;
  }

  /** Splitting joined indices and parsing the pieces gives the indices back. */
  lemma {:induction false} ParseSplitJoin(p: Path)
    requires |p| >= 1
    ensures ParseAll(Split(JoinIndices(p))) == Some(p)
    decreases |p|
  {
    var head := NatToString(p[0]);
    DigitsHaveNoSeparator(p[0]);
    ParseNatToString(p[0]);
    if |p| == 1 {
      SplitWithoutSeparator(head);
      assert [head][1..] == [];
      assert [p[0]] + [] == p;
    } else {
      var tail := JoinIndices(p[1..]);
      assert JoinIndices(p) == head + [Separator] + tail;
      SplitAtFirstSeparator(head, tail);
      ParseSplitJoin(p[1..]);
      ParseAllCons(head, Split(tail), p[0], p[1..]);
      assert [p[0]] + p[1..] == p;
    }
  }

  /** Every path is recovered from its droppable ID, the root list included. */
  lemma DecodeEncode(p: Path)
    ensures Decode(Encode(p)) == Some(p)
  {
    var id := Encode(p);
    if |p| > 0 {
      assert id[|Prefix|..] == JoinIndices(p);
      ParseSplitJoin(p);
    }
  }

  /** Distinct lists get distinct droppable IDs. */
  lemma EncodeInjective(p: Path, q: Path)
    requires Encode(p) == Encode(q)
    ensures p == q
  {
    DecodeEncode(p);
    DecodeEncode(q);
  }
}

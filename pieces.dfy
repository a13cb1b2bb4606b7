/**
 The manifest, its pieces, and the in-place sort that puts the pieces in
 file-offset order before they are fetched.
 */
module Pieces {

  /** One byte range of the target file, served at its own URL. */
  datatype Piece = Piece(url: string, fileOffset: int, fileSize: int, hashValue: string)

  /** The decoded manifest document. */
  datatype Manifest = Manifest(pieces: seq<Piece>, originalFileSize: int)

  predicate SortedByOffset(s: seq<Piece>) {
    forall i, j :: 0 <= i < j < |s| ==> s[i].fileOffset <= s[j].fileOffset
  }

  /** The offsets of the pieces, in order. */
  function Offsets(s: seq<Piece>): (r: seq<int>)
  {
    seq(|s|, i requires 0 <= i < |s| => s[i].fileOffset)
  }

  /**
   sort.Slice with "offset of i < offset of j" as the ordering: afterwards
   the pieces are a permutation of what they were and their offsets never
   decrease. The order of pieces with equal offsets is not specified.
   */
  method SortByOffset(a: array<Piece>)
    modifies a
    ensures SortedByOffset(a[..])
    ensures multiset(a[..]) == multiset(old(a[..]))
  {
    var i := 0;
    while i < a.Length
      invariant 0 <= i <= a.Length
      invariant SortedByOffset(a[..i])
      invariant multiset(a[..]) == multiset(old(a[..]))
    {
      InsertLast(a, i);
      i := i + 1;
    }
    assert a[..i] == a[..];
  }

  /** Moves a[i] down into the sorted prefix a[..i]. */
  method InsertLast(a: array<Piece>, i: nat)
    requires i < a.Length && SortedByOffset(a[..i])
    modifies a
    ensures SortedByOffset(a[..i + 1])
    ensures multiset(a[..]) == multiset(old(a[..]))
  {
    var j := i;
    while j > 0 && a[j - 1].fileOffset > a[j].fileOffset
      invariant 0 <= j <= i
      invariant forall k, l :: 0 <= k < l <= i && l != j ==> a[k].fileOffset <= a[l].fileOffset
      invariant multiset(a[..]) == multiset(old(a[..]))
    {
      Swap(a, j - 1, j);
      j := j - 1;
    }
  }

  method Swap(a: array<Piece>, i: nat, j: nat)
    requires i < j < a.Length
    modifies a
    ensures a[i] == old(a[j]) && a[j] == old(a[i])
    ensures forall k :: 0 <= k < a.Length && k != i && k != j ==> a[k] == old(a[k])
    ensures multiset(a[..]) == multiset(old(a[..]))
  {
    a[i], a[j] := a[j], a[i];
  }

  lemma MultisetOfTail<T>(s: seq<T>)
    requires s != []
    ensures multiset(s[1..]) == multiset(s) - multiset{s[0]}
  {
    assert s == [s[0]] + s[1..];
  }

  /** An index at which a member of the multiset of `t` occurs in `t`. */
  lemma IndexOf<T>(x: T, t: seq<T>) returns (j: nat)
    requires x in multiset(t)
    ensures j < |t| && t[j] == x
  {
    assert x in t;
    j :| 0 <= j < |t| && t[j] == x;
  }

  /** Removing the element at `j`. */
  function RemoveAt<T>(s: seq<T>, j: nat): (r: seq<T>)
    requires j < |s|
    ensures multiset(r) == multiset(s) - multiset{s[j]}
    ensures |r| == |s| - 1
  {
    assert s == s[..j] + [s[j]] + s[j + 1..];
    s[..j] + s[j + 1..]
  }

  lemma OffsetsAppend(s: seq<Piece>, t: seq<Piece>)
    ensures Offsets(s + t) == Offsets(s) + Offsets(t)
  {
  }

  lemma OffsetsRemoveAt(t: seq<Piece>, j: nat)
    requires j < |t|
    ensures multiset(Offsets(t)) == multiset(Offsets(RemoveAt(t, j))) + multiset{t[j].fileOffset}
  {
    assert t == t[..j] + [t[j]] + t[j + 1..];
    OffsetsAppend(t[..j] + [t[j]], t[j + 1..]);
    OffsetsAppend(t[..j], [t[j]]);
    OffsetsAppend(t[..j], t[j + 1..]);
  }

  lemma OffsetsOfTail(s: seq<Piece>)
    requires s != []
    ensures multiset(Offsets(s)) == multiset{s[0].fileOffset} + multiset(Offsets(s[1..]))
  {
    assert Offsets(s) == [s[0].fileOffset] + Offsets(s[1..]);
  }

  /** Pieces that are permutations of each other have the same multiset of offsets. */
  lemma {:induction false} OffsetsPermutation(s: seq<Piece>, t: seq<Piece>)
    requires multiset(s) == multiset(t)
    ensures multiset(Offsets(s)) == multiset(Offsets(t))
    decreases |s|
  {
    if s == [] {
      assert |t| == |multiset(t)| == 0;
      assert t == [];
    } else {
      var j := IndexOf(s[0], t);
      var rest := RemoveAt(t, j);
      MultisetOfTail(s);
      OffsetsPermutation(s[1..], rest);
      OffsetsOfTail(s);
      OffsetsRemoveAt(t, j);
    }
  }

  predicate Ascending(s: seq<int>) {
    forall i, j :: 0 <= i < j < |s| ==> s[i] <= s[j]
  }

  /** A sequence of integers is determined by its multiset once it is sorted. */
  lemma {:induction false} AscendingUnique(x: seq<int>, y: seq<int>)
    requires Ascending(x) && Ascending(y)
    requires multiset(x) == multiset(y)
    ensures x == y
    decreases |x|
  {
    if x == [] {
      assert |y| == |multiset(y)| == 0;
    } else {
      assert |y| == |multiset(y)| == |x|;
      var j := IndexOf(x[0], y);
      var k := IndexOf(y[0], x);
      assert x[0] == y[0];
      MultisetOfTail(x);
      MultisetOfTail(y);
      AscendingUnique(x[1..], y[1..]);
      assert x == [x[0]] + x[1..] && y == [y[0]] + y[1..];
    }
  }

  /**
   The sort is not stable, but any two results of sorting the same pieces
   list the same offsets in the same order.
   */
  lemma SortedOffsetsAgree(s: seq<Piece>, t: seq<Piece>)
    requires SortedByOffset(s) && SortedByOffset(t)
    requires multiset(s) == multiset(t)
    ensures Offsets(s) == Offsets(t)
  {
    OffsetsPermutation(s, t);
    AscendingUnique(Offsets(s), Offsets(t));
  }
}

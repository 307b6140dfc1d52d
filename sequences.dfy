/** The abstract effect of darray's operations on its sequence of elements:
    insertion of a range at an index, erasure of an index range, and the
    rotation (`std::rotate`) the single-pass insert relies on. */
module Sequences {

  /** `s` with `r` inserted before index `i`. */
  function Inserted<T>(s: seq<T>, i: nat, r: seq<T>): (t: seq<T>)
    requires i <= |s|
    ensures |t| == |s| + |r|
    ensures forall k {:trigger t[k]} :: 0 <= k < i ==> t[k] == s[k]
    ensures forall k {:trigger t[k]} :: i <= k < i + |r| ==> t[k] == r[k - i]
    ensures forall k {:trigger t[k]} :: i + |r| <= k < |t| ==> t[k] == s[k - |r|]
  {
    s[..i] + r + s[i..]
  }

  /** `s` without the elements at indices `f` up to (excluding) `l`. */
  function Erased<T>(s: seq<T>, f: nat, l: nat): (t: seq<T>)
    requires f <= l <= |s|
    ensures |t| == |s| - (l - f)
    ensures forall k {:trigger t[k]} :: 0 <= k < f ==> t[k] == s[k]
    ensures forall k {:trigger t[k]} :: f <= k < |t| ==> t[k] == s[k + (l - f)]
  {
    s[..f] + s[l..]
  }

  /** `std::rotate(s + lo, s + mid, s + |s|)`: the elements from `mid` on
      move to `lo`, and those between `lo` and `mid` follow them. */
  function Rotated<T>(s: seq<T>, lo: nat, mid: nat): (t: seq<T>)
    requires lo <= mid <= |s|
    ensures |t| == |s|
    ensures forall k {:trigger t[k]} :: 0 <= k < lo ==> t[k] == s[k]
    ensures forall k {:trigger t[k]} :: lo <= k < lo + (|s| - mid) ==> t[k] == s[k + (mid - lo)]
    ensures forall k {:trigger t[k]} :: lo + (|s| - mid) <= k < |s| ==> t[k] == s[k - (|s| - mid)]
  {
    s[..lo] + s[mid..] + s[lo..mid]
  }

  /** Inserting nothing changes nothing. */
  lemma InsertedNothing<T>(s: seq<T>, i: nat)
    requires i <= |s|
    ensures Inserted(s, i, []) == s
  {
    assert s[..i] + s[i..] == s;
  }

  /** Inserting at the end appends. */
  lemma InsertedAtEnd<T>(s: seq<T>, r: seq<T>)
    ensures Inserted(s, |s|, r) == s + r
  {
    assert s[..|s|] == s;
  }

  /** Erasing what was just inserted gives back the original sequence. */
  lemma ErasedInserted<T>(s: seq<T>, i: nat, r: seq<T>)
    requires i <= |s|
    ensures Erased(Inserted(s, i, r), i, i + |r|) == s
  {
    var t := Inserted(s, i, r);
    assert Erased(t, i, i + |r|) == t[..i] + t[i + |r|..];
    assert t[..i] == s[..i];
    assert t[i + |r|..] == s[i..];
    assert s[..i] + s[i..] == s;
  }

  /** Appending a range and rotating it from the end to index `i` is the
      same as inserting it at `i`: the single-pass insert is correct. */
  lemma RotatedAppended<T>(s: seq<T>, i: nat, r: seq<T>)
    requires i <= |s|
    ensures Rotated(s + r, i, |s|) == Inserted(s, i, r)
  {
    var t := s + r;
    assert t[..i] == s[..i];
    assert t[|s|..] == r;
    assert t[i..|s|] == s[i..];
  }
}

/**
 * The JavaScript string and array helpers the viewer relies on:
 * `Array.prototype.join`, `String.prototype.split` with a one-character
 * separator followed by `pop()`, and a first-occurrence search.
 */
module Strings {

  /** `parts.join(sep)`: the parts in order, with `sep` between neighbours. */
  function Join(sep: string, parts: seq<string>): string
  {
    if |parts| == 0 then ""
    else if |parts| == 1 then parts[0]
    else parts[0] + sep + Join(sep, parts[1..])
  }

  /** `s.split(c)` for a one-character separator `c`. */
  function Split(s: string, c: char): (pieces: seq<string>)
    ensures |pieces| >= 1
    ensures forall i :: 0 <= i < |pieces| ==> c !in pieces[i]
  {
    if |s| == 0 then [""]
    else
      var init := Split(s[..|s| - 1], c);
      var last := s[|s| - 1];
      if last == c then init + [""]
      else init[..|init| - 1] + [init[|init| - 1] + [last]]
  }

  /** `s.split(c).pop()`: the last piece of the split. */
  function LastPiece(s: string, c: char): string
  {
    var pieces := Split(s, c);
    pieces[|pieces| - 1]
  }

  /** Position where the `i`-th part begins in `Join(sep, parts)`. */
  function PieceOffset(sep: string, parts: seq<string>, i: nat): nat
    requires i <= |parts|
  {
    if i == 0 then 0 else PieceOffset(sep, parts, i - 1) + |parts[i - 1]| + |sep|
  }

  /** Sum of the lengths of the parts. */
  function TotalLength(parts: seq<string>): nat
  {
    if |parts| == 0 then 0 else |parts[0]| + TotalLength(parts[1..])
  }

  /** Index of the first `c` in `s`, or `|s|` when there is none. */
  function FirstIndex(s: string, c: char): (k: nat)
    ensures k <= |s|
    ensures k < |s| ==> s[k] == c
    ensures forall j :: 0 <= j < k ==> s[j] != c
  {
    if |s| == 0 then 0
    else if s[0] == c then 0
    else 1 + FirstIndex(s[1..], c)
  }

  /** Appending one more part adds a separator and the part at the end. */
  lemma {:induction false} JoinSnoc(sep: string, parts: seq<string>, x: string)
    requires |parts| > 0
    ensures Join(sep, parts + [x]) == Join(sep, parts) + sep + x
  {
    if |parts| == 1 {
      assert parts + [x] == [parts[0], x];
      assert (parts + [x])[1..] == [x];
    } else {
      assert (parts + [x])[1..] == parts[1..] + [x];
      JoinSnoc(sep, parts[1..], x);
    }
  }

  /** Splitting and joining back with the same separator gives the string back. */
  lemma {:induction false} JoinSplit(s: string, c: char)
    ensures Join([c], Split(s, c)) == s
  {
    if |s| > 0 {
      var t, last := s[..|s| - 1], s[|s| - 1];
      var init := Split(t, c);
      JoinSplit(t, c);
      assert s == t + [last];
      if last == c {
        JoinSnoc([c], init, "");
      } else {
        var p, q := init[..|init| - 1], init[|init| - 1];
        assert init == p + [q];
        if |p| == 0 {
          assert Split(s, c) == [q + [last]];
        } else {
          JoinSnoc([c], p, q);
          JoinSnoc([c], p, q + [last]);
        }
      }
    }
  }

  /**
   * The last piece of a split is the longest suffix free of the separator:
   * it is a suffix, it holds no separator, and it is either the whole
   * string or preceded by a separator.
   */
  lemma {:induction false} LastPieceIsAfterLastSeparator(s: string, c: char)
    ensures var p := LastPiece(s, c);
      |p| <= |s| && s[|s| - |p|..] == p && c !in p &&
      (|p| < |s| ==> s[|s| - |p| - 1] == c)
  {
    if |s| > 0 {
      var t, last := s[..|s| - 1], s[|s| - 1];
      LastPieceIsAfterLastSeparator(t, c);
      LastPieceSnoc(s, c);
      if last != c {
        var q := LastPiece(t, c);
        assert s[|s| - |q| - 1..] == q + [last] by {
          assert s == t + [last];
          assert s[|s| - |q| - 1..] == t[|t| - |q|..] + [last];
        }
        if |q| + 1 < |s| {
          assert s[|s| - |q| - 2] == t[|t| - |q| - 1];
        }
      }
    }
  }

  /** A separator at the end starts an empty last piece; any other character extends it. */
  lemma LastPieceSnoc(s: string, c: char)
    requires |s| > 0
    ensures LastPiece(s, c) == if s[|s| - 1] == c then "" else LastPiece(s[..|s| - 1], c) + [s[|s| - 1]]
  {
  }

  /** A string without the separator is its own last piece. */
  lemma {:induction false} LastPieceWithoutSeparator(s: string, c: char)
    requires c !in s
    ensures LastPiece(s, c) == s
  {
    if |s| > 0 {
      LastPieceWithoutSeparator(s[..|s| - 1], c);
      assert s == s[..|s| - 1] + [s[|s| - 1]];
    }
  }

  /** Whatever precedes the last separator does not matter. */
  lemma {:induction false} LastPieceAfterSeparator(a: string, c: char, b: string)
    requires c !in b
    ensures LastPiece(a + [c] + b, c) == b
  {
    var s := a + [c] + b;
    if |b| == 0 {
      assert s[|s| - 1] == c;
    } else {
      var b' := b[..|b| - 1];
      LastPieceAfterSeparator(a, c, b');
      assert s[..|s| - 1] == a + [c] + b';
      assert b == b' + [b[|b| - 1]];
    }
  }

  /** The `i`-th part sits at `PieceOffset(sep, parts, i)` of the joined string. */
  lemma {:induction false} JoinPieceAt(sep: string, parts: seq<string>, i: nat)
    requires i < |parts|
    ensures PieceOffset(sep, parts, i) + |parts[i]| <= |Join(sep, parts)|
    ensures Join(sep, parts)[PieceOffset(sep, parts, i)..PieceOffset(sep, parts, i) + |parts[i]|] == parts[i]
  {
    var j := Join(sep, parts);
    if |parts| == 1 {
    } else {
      var rest := Join(sep, parts[1..]);
      assert j == parts[0] + sep + rest;
      if i == 0 {
        assert j[..|parts[0]|] == parts[0];
      } else {
        JoinPieceAt(sep, parts[1..], i - 1);
        PieceOffsetTail(sep, parts, i);
        var o := PieceOffset(sep, parts[1..], i - 1);
        assert parts[1..][i - 1] == parts[i];
        assert j == (parts[0] + sep) + rest;
        SliceAfterPrefix(parts[0] + sep, rest, o, |parts[i]|);
      }
    }
  }

  /** Offsets into the tail are shifted by the first part and one separator. */
  lemma {:induction false} PieceOffsetTail(sep: string, parts: seq<string>, i: nat)
    requires 0 < i <= |parts|
    ensures PieceOffset(sep, parts, i) == |parts[0]| + |sep| + PieceOffset(sep, parts[1..], i - 1)
  {
    if i > 1 {
      PieceOffsetTail(sep, parts, i - 1);
      assert parts[1..][i - 2] == parts[i - 1];
    }
  }

  /** Slicing past a prefix is slicing the rest. */
  lemma SliceAfterPrefix(x: string, y: string, k: nat, m: nat)
    requires k + m <= |y|
    ensures (x + y)[|x| + k..|x| + k + m] == y[k..k + m]
  {
    var xy, sl := x + y, (x + y)[|x| + k..|x| + k + m];
    assert forall j :: 0 <= j < m ==> sl[j] == xy[|x| + k + j] == y[k + j];
  }

  /** A prefix of a slice is a slice of the same string. */
  lemma SliceOfSlice(p: string, o: nat, seg: string, pre: string)
    requires o + |seg| <= |p| && p[o..o + |seg|] == seg
    requires |pre| <= |seg| && seg[..|pre|] == pre
    ensures o + |pre| <= |p| && p[o..o + |pre|] == pre
  {
    assert forall j :: 0 <= j < |pre| ==> p[o..o + |pre|][j] == seg[j];
  }

  /** The joined string is as long as its parts plus one separator between each pair. */
  lemma {:induction false} JoinLength(sep: string, parts: seq<string>)
    requires |parts| > 0
    ensures |Join(sep, parts)| == TotalLength(parts) + (|parts| - 1) * |sep|
  {
    if |parts| > 1 {
      JoinLength(sep, parts[1..]);
    }
  }
}

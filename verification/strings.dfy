/** String and sequence helpers with the semantics of the JavaScript built-ins
    the sync engine relies on: `String.prototype.split` with a non-empty
    separator, `Array.prototype.join`, `String.prototype.trim` and
    `Array.prototype.filter`. */
module Strings {

  /** `sep` occurs in `s` at some position. */
  predicate Contains(s: string, sep: string)
    decreases |s|
  {
    |sep| <= |s| && (s[..|sep|] == sep || Contains(s[1..], sep))
  }

  /** `pieces` joined with `sep` between neighbours, as `Array.prototype.join`. */
  function Join(pieces: seq<string>, sep: string): string
    decreases |pieces|
  {
    if |pieces| == 0 then ""
    else if |pieces| == 1 then pieces[0]
    else pieces[0] + sep + Join(pieces[1..], sep)
  }

  /** `s.split(sep)` for a non-empty separator: the pieces between the
      occurrences of `sep`, found left to right without overlap. The empty
      string splits into one empty piece. */
  function Split(s: string, sep: string): (pieces: seq<string>)
    requires |sep| > 0
    ensures |pieces| >= 1
    decreases |s|
  {
    if |s| == 0 then [""]
    else if |sep| <= |s| && s[..|sep|] == sep then [""] + Split(s[|sep|..], sep)
    else
      var rest := Split(s[1..], sep);
      [[s[0]] + rest[0]] + rest[1..]
  }

  /** Joining the pieces back with the separator gives the text that was
      split. */
  lemma {:induction false} JoinSplit(s: string, sep: string)
    requires |sep| > 0
    ensures Join(Split(s, sep), sep) == s
    decreases |s|
  {
    if |s| == 0 {
    } else if |sep| <= |s| && s[..|sep|] == sep {
      JoinSplit(s[|sep|..], sep);
      JoinAfterEmpty(Split(s[|sep|..], sep), sep);
      assert sep + s[|sep|..] == s;
    } else {
      JoinSplit(s[1..], sep);
      JoinExtendFirst(s[0], Split(s[1..], sep), sep);
      assert [s[0]] + s[1..] == s;
    }
  }

  /** No piece of a split on one character contains that character. */
  lemma {:induction false} SplitPiecesAvoid(s: string, c: char)
    ensures forall i :: 0 <= i < |Split(s, [c])| ==> c !in Split(s, [c])[i]
    decreases |s|
  {
    if |s| > 0 {
      if s[..1] == [c] {
        SplitPiecesAvoid(s[1..], c);
      } else {
        assert s[0] != c by { assert s[..1] == [s[0]]; }
        SplitPiecesAvoid(s[1..], c);
      }
    }
  }

  /** An empty first piece contributes only the separator that follows it. */
  lemma JoinAfterEmpty(rest: seq<string>, sep: string)
    requires |rest| >= 1
    ensures Join([""] + rest, sep) == sep + Join(rest, sep)
  {
    assert ([""] + rest)[1..] == rest;
  }

  /** A character put in front of the first piece ends up in front of the
      join. */
  lemma JoinExtendFirst(x: char, rest: seq<string>, sep: string)
    requires |rest| >= 1
    ensures Join([[x] + rest[0]] + rest[1..], sep) == [x] + Join(rest, sep)
  {
    var pieces := [[x] + rest[0]] + rest[1..];
    assert pieces[1..] == rest[1..];
    if |rest| > 1 {
      assert [x] + rest[0] + sep + Join(rest[1..], sep) == [x] + (rest[0] + sep + Join(rest[1..], sep));
    }
  }

  /** A string in which `sep` does not occur is a single piece. */
  lemma {:induction false} SplitWithoutOccurrence(s: string, sep: string)
    requires |sep| > 0 && !Contains(s, sep)
    ensures Split(s, sep) == [s]
    decreases |s|
  {
    if |s| > 0 {
      assert !(|sep| <= |s| && s[..|sep|] == sep);
      assert !Contains(s[1..], sep);
      SplitWithoutOccurrence(s[1..], sep);
      assert [s[0]] + s[1..] == s;
    }
  }

  /** A string free of the character `c` is a single piece when split on `c`. */
  lemma {:induction false} SplitWithoutChar(s: string, c: char)
    requires c !in s
    ensures Split(s, [c]) == [s]
    decreases |s|
  {
    if |s| > 0 {
      assert s[..1] != [c] by { assert s[0] in s; }
      SplitWithoutChar(s[1..], c);
      assert [s[0]] + s[1..] == s;
    }
  }

  /** Splitting on a one-character separator distributes over an occurrence of
      that separator: the pieces of `a` followed by the pieces of `b`. */
  lemma {:induction false} SplitAround(a: string, c: char, b: string)
    ensures Split(a + [c] + b, [c]) == Split(a, [c]) + Split(b, [c])
    decreases |a|
  {
    if |a| == 0 {
      assert a + [c] + b == [c] + b;
      SplitSeparatorFirst(c, b);
    } else {
      SplitAround(a[1..], c, b);
      assert a == [a[0]] + a[1..];
      assert a + [c] + b == [a[0]] + (a[1..] + [c] + b);
      if a[0] == c {
        SplitAroundSeparator(c, a[1..], b);
      } else {
        SplitAroundOther(a[0], c, a[1..], b);
      }
    }
  }

  /** The step of `SplitAround` for text starting with the separator. */
  lemma SplitAroundSeparator(c: char, a: string, b: string)
    requires Split(a + [c] + b, [c]) == Split(a, [c]) + Split(b, [c])
    ensures Split([c] + (a + [c] + b), [c]) == Split([c] + a, [c]) + Split(b, [c])
  {
    SplitSeparatorFirst(c, a + [c] + b);
    SplitSeparatorFirst(c, a);
    ConsAppend("", Split(a, [c]), Split(b, [c]));
  }

  /** The step of `SplitAround` for text starting with another character. */
  lemma SplitAroundOther(x: char, c: char, a: string, b: string)
    requires x != c
    requires Split(a + [c] + b, [c]) == Split(a, [c]) + Split(b, [c])
    ensures Split([x] + (a + [c] + b), [c]) == Split([x] + a, [c]) + Split(b, [c])
  {
    SplitOtherFirst(x, c, a + [c] + b);
    SplitOtherFirst(x, c, a);
    ExtendFirstAppend(x, Split(a, [c]), Split(b, [c]));
  }

  lemma ConsAppend<T>(x: T, p: seq<T>, q: seq<T>)
    ensures [x] + (p + q) == [x] + p + q
  {
  }

  /** Extending the first piece commutes with appending more pieces. */
  lemma ExtendFirstAppend(x: char, p: seq<string>, q: seq<string>)
    requires |p| >= 1
    ensures [[x] + (p + q)[0]] + (p + q)[1..] == [[x] + p[0]] + p[1..] + q
  {
    assert (p + q)[0] == p[0];
    assert (p + q)[1..] == p[1..] + q;
  }

  /** Splitting text that starts with the separator character. */
  lemma SplitSeparatorFirst(c: char, t: string)
    ensures Split([c] + t, [c]) == [""] + Split(t, [c])
  {
    var s := [c] + t;
    assert s[..1] == [c] && s[1..] == t;
  }

  /** Splitting text that starts with another character: that character
      joins the first piece. */
  lemma SplitOtherFirst(x: char, c: char, t: string)
    requires x != c
    ensures Split([x] + t, [c]) == [[x] + Split(t, [c])[0]] + Split(t, [c])[1..]
  {
    var s := [x] + t;
    assert s[..1] != [c] && s[1..] == t && s[0] == x;
  }

  /** The other round trip: pieces free of the separator character come back
      unchanged from splitting their join. */
  lemma {:induction false} SplitJoin(pieces: seq<string>, c: char)
    requires |pieces| >= 1
    requires forall i :: 0 <= i < |pieces| ==> c !in pieces[i]
    ensures Split(Join(pieces, [c]), [c]) == pieces
    decreases |pieces|
  {
    if |pieces| == 1 {
      SplitWithoutChar(pieces[0], c);
    } else {
      SplitJoin(pieces[1..], c);
      SplitAround(pieces[0], c, Join(pieces[1..], [c]));
      SplitWithoutChar(pieces[0], c);
      assert [pieces[0]] + pieces[1..] == pieces;
    }
  }

  /** A string that starts with `sep`, followed by text in which `sep` does
      not occur, splits into an empty piece and that text. */
  lemma SplitAfterSeparator(sep: string, rest: string)
    requires |sep| > 0 && !Contains(rest, sep)
    ensures Split(sep + rest, sep) == ["", rest]
  {
    var s := sep + rest;
    assert s[..|sep|] == sep && s[|sep|..] == rest;
    SplitWithoutOccurrence(rest, sep);
  }

  // ---------------------------------------------------------------------------
  // Trimming

  /** The whitespace `String.prototype.trim` removes, restricted to ASCII. */
  const SpaceChars: set<char> := {' ', '\t', '\n', '\r', '\U{000B}', '\U{000C}'}

  predicate IsSpace(c: char)
  {
    c in SpaceChars
  }

  predicate AllSpace(s: string)
  {
    forall i :: 0 <= i < |s| ==> IsSpace(s[i])
  }

  /** The index of the first non-space character at or after `i`, or `|s|`
      when there is none. */
  function SkipSpaces(s: string, i: nat): (j: nat)
    requires i <= |s|
    ensures i <= j <= |s|
    ensures forall k :: i <= k < j ==> IsSpace(s[k])
    ensures j == |s| || !IsSpace(s[j])
    decreases |s| - i
  {
    if i < |s| && IsSpace(s[i]) then SkipSpaces(s, i + 1) else i
  }

  /** The index just past the last non-space character before `j`, not going
      below `lo`. */
  function SkipSpacesBack(s: string, lo: nat, j: nat): (k: nat)
    requires lo <= j <= |s|
    ensures lo <= k <= j
    ensures forall m :: k <= m < j ==> IsSpace(s[m])
    ensures k == lo || !IsSpace(s[k - 1])
    decreases j
  {
    if j > lo && IsSpace(s[j - 1]) then SkipSpacesBack(s, lo, j - 1) else j
  }

  lemma AllSpaceSlice(s: string, lo: nat, hi: nat)
    requires lo <= hi <= |s|
    requires forall k :: lo <= k < hi ==> IsSpace(s[k])
    ensures AllSpace(s[lo..hi])
  {
    forall k | 0 <= k < hi - lo ensures IsSpace(s[lo..hi][k]) {
      assert s[lo..hi][k] == s[lo + k];
    }
  }

  /** Whitespace below `i` and from `j` on makes the prefix and the suffix all
      whitespace. */
  lemma SpaceSides(s: string, i: nat, j: nat)
    requires i <= j <= |s|
    requires forall k :: 0 <= k < i ==> IsSpace(s[k])
    requires forall k :: j <= k < |s| ==> IsSpace(s[k])
    ensures AllSpace(s[..i]) && AllSpace(s[j..])
  {
    AllSpaceSlice(s, 0, i);
    AllSpaceSlice(s, j, |s|);
    assert s[..i] == s[0..i] && s[j..] == s[j..|s|];
  }

  /** The slice between two indices, with whitespace on both sides of it, is
      the middle of `s` that starts at the first of them. */
  lemma TrimmedMiddle(s: string, i: nat, j: nat, r: string)
    requires i <= j <= |s| && r == s[i..j]
    requires forall k :: 0 <= k < i ==> IsSpace(s[k])
    requires forall k :: j <= k < |s| ==> IsSpace(s[k])
    ensures 0 <= i <= |s| - |r| && r == s[i..i + |r|] && AllSpace(s[..i]) && AllSpace(s[i + |r|..])
  {
    SpaceSides(s, i, j);
    assert i + |r| == j;
  }

  /** A slice that starts and ends just inside non-space characters has no
      whitespace at either end. */
  lemma TrimmedEnds(s: string, i: nat, j: nat, r: string)
    requires i <= j <= |s| && r == s[i..j]
    requires i == |s| || !IsSpace(s[i])
    requires j == i || !IsSpace(s[j - 1])
    ensures r == [] || (!IsSpace(r[0]) && !IsSpace(r[|r| - 1]))
  {
    if i < j {
      assert r[0] == s[i] && r[|r| - 1] == s[j - 1];
    }
  }

  /** `s.trim()`: the contiguous middle of `s` obtained by dropping whitespace
      at both ends. */
  function Trim(s: string): (r: string)
    ensures exists i :: 0 <= i <= |s| - |r| && r == s[i..i + |r|] && AllSpace(s[..i]) && AllSpace(s[i + |r|..])
    ensures r == [] || (!IsSpace(r[0]) && !IsSpace(r[|r| - 1]))
  {
    var i := SkipSpaces(s, 0);
    var j := SkipSpacesBack(s, i, |s|);
    var r := s[i..j];
    TrimmedMiddle(s, i, j, r);
    TrimmedEnds(s, i, j, r);
    r
  }

  // ---------------------------------------------------------------------------
  // Subsequences, filtering and mapping

  /** `a` is obtained from `b` by deleting elements, keeping the order. */
  predicate IsSubseq<T(==)>(a: seq<T>, b: seq<T>)
    decreases |b|
  {
    a == [] || (b != [] && ((a[0] == b[0] && IsSubseq(a[1..], b[1..])) || IsSubseq(a, b[1..])))
  }

  /** `items.filter(keep)`: the elements that pass, in their original order. */
  function Filter<T(==,!new)>(items: seq<T>, keep: T -> bool): (r: seq<T>)
    ensures forall x :: x in r <==> x in items && keep(x)
    ensures IsSubseq(r, items)
    decreases |items|
  {
    if items == [] then []
    else
      var rest := Filter(items[1..], keep);
      assert forall x :: x in items <==> x == items[0] || x in items[1..];
      if keep(items[0]) then
        assert ([items[0]] + rest)[1..] == rest;
        [items[0]] + rest
      else rest
  }

  /** Filtering keeps every passing item as many times as it occurs and
      drops every other item entirely. */
  lemma {:induction false} FilterCounts<T(!new)>(items: seq<T>, keep: T -> bool)
    ensures forall x :: multiset(Filter(items, keep))[x] == if keep(x) then multiset(items)[x] else 0
    decreases |items|
  {
    if items != [] {
      FilterCounts(items[1..], keep);
      assert items == [items[0]] + items[1..];
      assert multiset(items) == multiset{items[0]} + multiset(items[1..]);
    }
  }

  /** `items.map(f)`. */
  function Map<T, U>(items: seq<T>, f: T -> U): seq<U>
  {
    seq(|items|, i requires 0 <= i < |items| => f(items[i]))
  }

  /** A subsequence is no longer than the sequence it comes from. */
  lemma {:induction false} SubseqLength<T>(a: seq<T>, b: seq<T>)
    requires IsSubseq(a, b)
    ensures |a| <= |b|
    decreases |b|
  {
    if a != [] {
      if a[0] == b[0] && IsSubseq(a[1..], b[1..]) {
        SubseqLength(a[1..], b[1..]);
      } else {
        SubseqLength(a, b[1..]);
      }
    }
  }

  /** What `items.map(f)` holds: the images of the items, and only those. */
  lemma MapMembers<T, U>(items: seq<T>, f: T -> U)
    ensures forall y :: y in Map(items, f) <==> exists x :: x in items && y == f(x)
  {
    var r := Map(items, f);
    forall y | y in r ensures exists x :: x in items && y == f(x) {
      var i :| 0 <= i < |r| && r[i] == y;
      assert items[i] in items;
    }
    forall x | x in items ensures f(x) in r {
      var i :| 0 <= i < |items| && items[i] == x;
      assert r[i] == f(x);
    }
  }

  /** Mapping keeps the subsequence relation. */
  lemma {:induction false} MapKeepsSubseq<T, U>(a: seq<T>, b: seq<T>, f: T -> U)
    requires IsSubseq(a, b)
    ensures IsSubseq(Map(a, f), Map(b, f))
    decreases |b|
  {
    if a != [] {
      assert Map(a, f)[1..] == Map(a[1..], f);
      assert Map(b, f)[1..] == Map(b[1..], f);
      if a[0] == b[0] && IsSubseq(a[1..], b[1..]) {
        MapKeepsSubseq(a[1..], b[1..], f);
      } else {
        MapKeepsSubseq(a, b[1..], f);
      }
    }
  }
}

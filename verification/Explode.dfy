/** WebSocket::explode: cutting a string at a delimiter. */
module Explode {

  /** `d` stands in `s` at position `i`. */
  predicate Occurs(s: string, d: string, i: nat)
  {
    i + |d| <= |s| && s[i..i + |d|] == d
  }

  ghost predicate Absent(s: string, d: string)
  {
    forall i: nat :: !Occurs(s, d, i)
  }

  /** The first position at or after `start`, or none. */
  ghost predicate Found(s: string, d: string, start: nat, at: int)
  {
    if at == -1 then forall i :: start <= i ==> !Occurs(s, d, i)
    else start <= at && Occurs(s, d, at) && forall i :: start <= i < at ==> !Occurs(s, d, i)
  }

  /** std::string::find; -1 stands for npos. */
  method Find(s: string, d: string, start: nat) returns (at: int)
    requires start <= |s|
    ensures -1 <= at && Found(s, d, start, at)
  {
    at := start;
    while at + |d| <= |s|
      invariant start <= at && forall i :: start <= i < at ==> !Occurs(s, d, i)
      decreases |s| - at
    {
      if s[at..at + |d|] == d {
        return;
      }
      at := at + 1;
    }
    return -1;
  }

  /** The pieces with `d` between them. */
  function Join(pieces: seq<string>, d: string): string
    requires |pieces| > 0
  {
    if |pieces| == 1 then pieces[0] else pieces[0] + d + Join(pieces[1..], d)
  }

  /** The pieces with `d` behind each of them. */
  function Delimited(pieces: seq<string>, d: string): string
  {
    if pieces == [] then "" else pieces[0] + d + Delimited(pieces[1..], d)
  }

  /** The first place where `d` stands in `piece` followed by `d` is right behind `piece`. */
  ghost predicate Clean(piece: string, d: string)
  {
    forall i :: 0 <= i < |piece| ==> !Occurs(piece + d, d, i)
  }

  ghost predicate AllClean(pieces: seq<string>, d: string)
  {
    forall k :: 0 <= k < |pieces| ==> Clean(pieces[k], d)
  }

  /** `pieces` is `s` cut at each delimiter, found from the left, with empty pieces kept. */
  ghost predicate IsSplit(s: string, d: string, pieces: seq<string>)
  {
    && |pieces| > 0
    && Join(pieces, d) == s
    && AllClean(pieces[..|pieces| - 1], d)
    && Absent(pieces[|pieces| - 1], d)
  }

  function NonEmpty(pieces: seq<string>): seq<string>
  {
    if pieces == [] then [] else NonEmpty(pieces[..|pieces| - 1]) + if pieces[|pieces| - 1] == "" then [] else [pieces[|pieces| - 1]]
  }

  lemma CleanPiece(s: string, d: string, start: nat, end: nat)
    requires start <= end && Occurs(s, d, end) && forall i :: start <= i < end ==> !Occurs(s, d, i)
    ensures Clean(s[start..end], d)
  {
    var piece, w := s[start..end], s[start..end + |d|];
    assert piece + d == w;
    forall i | 0 <= i < |piece|
      ensures !Occurs(w, d, i)
    {
      assert !Occurs(s, d, start + i);
      if i + |d| <= |w| {
        SliceOfSlice(s, start, end + |d|, i, i + |d|);
      }
    }
  }

  lemma SliceOfSlice(s: string, lo: nat, hi: nat, i: nat, j: nat)
    requires lo <= hi <= |s| && i <= j <= hi - lo
    ensures s[lo..hi][i..j] == s[lo + i..lo + j]
  {
    var a, b := s[lo..hi][i..j], s[lo + i..lo + j];
    assert |a| == |b|;
    assert forall k :: 0 <= k < |a| ==> a[k] == s[lo..hi][i + k] == s[lo + (i + k)] == b[k];
  }

  lemma {:induction false} DelimitedSnoc(pieces: seq<string>, last: string, d: string)
    ensures Delimited(pieces + [last], d) == Delimited(pieces, d) + last + d
  {
    if pieces == [] {
      assert pieces + [last] == [last];
      assert Delimited([last], d) == last + d + Delimited([], d);
    } else {
      assert (pieces + [last])[1..] == pieces[1..] + [last];
      DelimitedSnoc(pieces[1..], last, d);
    }
  }

  lemma {:induction false} JoinSnoc(pieces: seq<string>, last: string, d: string)
    ensures Join(pieces + [last], d) == Delimited(pieces, d) + last
  {
    if pieces == [] {
      assert pieces + [last] == [last];
    } else {
      assert (pieces + [last])[1..] == pieces[1..] + [last];
      JoinSnoc(pieces[1..], last, d);
    }
  }

  lemma LastPiece(s: string, d: string, start: nat)
    requires start <= |s| && Found(s, d, start, -1)
    ensures Absent(s[start..], d)
  {
    forall i: nat
      ensures !Occurs(s[start..], d, i)
    {
      assert !Occurs(s, d, start + i);
      if i + |d| <= |s[start..]| {
        assert s[start..][i..i + |d|] == s[start + i..start + i + |d|];
      }
    }
  }

  /** There is only one split. */
  lemma {:induction false} SplitIsUnique(s: string, d: string, a: seq<string>, b: seq<string>)
    requires d != "" && IsSplit(s, d, a) && IsSplit(s, d, b)
    ensures a == b
    decreases |a|
  {
    FirstPiece(s, d, a);
    FirstPiece(s, d, b);
    if |a| > 1 && |b| > 1 {
      if |a[0]| < |b[0]| {
        EarlierFirst(s, d, a[0], b[0]);
      } else if |b[0]| < |a[0]| {
        EarlierFirst(s, d, b[0], a[0]);
      }
      assert a[0] == s[..|a[0]|] == s[..|b[0]|] == b[0];
      assert Join(a[1..], d) == s[|a[0]| + |d|..] == Join(b[1..], d);
      assert a[1..][..|a| - 2] == a[..|a| - 1][1..];
      assert b[1..][..|b| - 2] == b[..|b| - 1][1..];
      SplitIsUnique(s[|a[0]| + |d|..], d, a[1..], b[1..]);
      assert a == [a[0]] + a[1..] && b == [b[0]] + b[1..];
    }
  }

  lemma FirstPiece(s: string, d: string, a: seq<string>)
    requires d != "" && IsSplit(s, d, a)
    ensures |a| == 1 ==> a == [s] && Absent(s, d)
    ensures |a| > 1 ==> a[0] + d <= s && Occurs(s, d, |a[0]|) && Clean(a[0], d)
  {
    if |a| > 1 {
      assert Clean(a[..|a| - 1][0], d);
    }
  }

  /** A delimiter that ends an earlier piece stands inside the later one. */
  lemma EarlierFirst(s: string, d: string, short: string, long: string)
    requires long + d <= s && |short| < |long| && Occurs(s, d, |short|)
    ensures !Clean(long, d)
  {
    assert (long + d)[|short|..|short| + |d|] == s[|short|..|short| + |d|];
    assert Occurs(long + d, d, |short|);
  }

  /**
   With empty pieces kept, the result is the split. By default it is the non-empty pieces that a delimiter
   follows: the last piece goes too, because npos assigned to an int is -1 and fails `length > 0`.
   */
  method Explode(theString: string, theDelimiter: string, theIncludeEmptyStrings: bool) returns (theStringVector: seq<string>)
    requires |theDelimiter| > 0 && |theString| < 0x8000_0000
    ensures exists pieces :: IsSplit(theString, theDelimiter, pieces)
    ensures forall pieces :: IsSplit(theString, theDelimiter, pieces) ==>
              theStringVector == if theIncludeEmptyStrings then pieces else NonEmpty(pieces[..|pieces| - 1])
  {
    theStringVector := [];
    var length := 0;
    var start, end := 0, 0;
    ghost var pieces: seq<string> := [];
    ghost var cut: seq<string> := [];
    while end != -1
      invariant -1 <= end && 0 <= start <= |theString|
      invariant AllClean(cut, theDelimiter) && Delimited(cut, theDelimiter) == theString[..start]
      invariant end != -1 ==> theStringVector == if theIncludeEmptyStrings then cut else NonEmpty(cut)
      invariant end == -1 ==> IsSplit(theString, theDelimiter, pieces) && pieces == cut + pieces[|pieces| - 1..]
      invariant end == -1 ==> theStringVector == if theIncludeEmptyStrings then pieces else NonEmpty(cut)
      decreases if end == -1 then 0 else 1 + |theString| - start
    {
      end := Find(theString, theDelimiter, start);
      length := if end == -1 then -1 else end - start;
      ghost var piece := theString[start..if end == -1 then |theString| else end];
      if theIncludeEmptyStrings || (length > 0 && start < |theString|) {
        theStringVector := theStringVector + [theString[start..if length == -1 then |theString| else start + length]];
      }
      if end == -1 {
        pieces := cut + [piece];
        JoinSnoc(cut, piece, theDelimiter);
        LastPiece(theString, theDelimiter, start);
        assert pieces[..|pieces| - 1] == cut;
      } else {
        CleanPiece(theString, theDelimiter, start, end);
        DelimitedSnoc(cut, piece, theDelimiter);
        assert (cut + [piece])[..|cut|] == cut;
        cut := cut + [piece];
        start := end + |theDelimiter|;
        assert theString[..start] == theString[..start - |theDelimiter| - |piece|] + piece + theDelimiter;
      }
    }
    assert pieces[..|pieces| - 1] == cut;
    forall other | IsSplit(theString, theDelimiter, other)
      ensures other == pieces
    {
      SplitIsUnique(theString, theDelimiter, other, pieces);
    }
  }

  /** No piece contains the delimiter. */
  lemma NoPieceContains(s: string, d: string, pieces: seq<string>, k: nat)
    requires d != "" && IsSplit(s, d, pieces) && k < |pieces|
    ensures Absent(pieces[k], d)
  {
    var piece := pieces[k];
    if k < |pieces| - 1 {
      assert Clean(pieces[..|pieces| - 1][k], d);
      forall i: nat
        ensures !Occurs(piece, d, i)
      {
        if Occurs(piece, d, i) {
          assert (piece + d)[i..i + |d|] == piece[i..i + |d|];
          assert Occurs(piece + d, d, i);
        }
      }
    }
  }

  // What the default mode loses.

  /** No proper prefix of the delimiter is also its suffix, as for a single character or a line end. */
  ghost predicate Unbordered(d: string)
  {
    forall n :: 0 < n < |d| ==> d[..n] != d[|d| - n..]
  }

  predicate EndsWith(s: string, d: string)
  {
    |d| <= |s| && s[|s| - |d|..] == d
  }

  /** A split string is its first pieces, each with a delimiter behind it, and the last piece. */
  lemma SplitEnds(s: string, d: string, pieces: seq<string>) returns (before: string)
    requires IsSplit(s, d, pieces)
    ensures s == (if |pieces| == 1 then "" else before + d) + pieces[|pieces| - 1]
  {
    var n := |pieces|;
    var front, last := pieces[..n - 1], pieces[n - 1];
    assert pieces == front + [last];
    JoinSnoc(front, last, d);
    before := "";
    if n > 1 {
      var first, x := front[..n - 2], front[n - 2];
      assert front == first + [x];
      DelimitedSnoc(first, x, d);
      before := Delimited(first, d) + x;
    }
  }

  /** A delimiter at the very end lies in the last piece or overlaps the delimiter before it. */
  lemma DelimiterAtEnd(before: string, last: string, d: string)
    requires EndsWith(before + last, d)
    ensures |last| >= |d| ==> Occurs(last, d, |last| - |d|)
    ensures |last| < |d| <= |before| && EndsWith(before, d) ==> d[..|d| - |last|] == d[|last|..]
  {
    var s := before + last;
    if |last| >= |d| {
      assert last[|last| - |d|..] == s[|s| - |d|..];
    } else if |d| <= |before| && EndsWith(before, d) {
      var n := |d| - |last|;
      assert d[..n] == s[|s| - |d|..][..n] == before[|before| - n..];
      assert d[|last|..] == before[|before| - |d|..][|last|..] == before[|before| - n..];
    }
  }

  /** Without a border, a delimiter at the end of the string is one the cutting found. */
  lemma LastPieceEmptyIff(s: string, d: string, pieces: seq<string>)
    requires d != "" && Unbordered(d) && IsSplit(s, d, pieces)
    ensures pieces[|pieces| - 1] == "" <==> s == "" || EndsWith(s, d)
  {
    var last := pieces[|pieces| - 1];
    var before := SplitEnds(s, d, pieces);
    if |pieces| > 1 {
      assert EndsWith(before + d, d);
    }
    if last != "" && EndsWith(s, d) {
      DelimiterAtEnd(if |pieces| == 1 then "" else before + d, last, d);
    }
  }

  lemma NonEmptySnoc(pieces: seq<string>)
    requires |pieces| > 0
    ensures NonEmpty(pieces) == NonEmpty(pieces[..|pieces| - 1]) <==> pieces[|pieces| - 1] == ""
  {
  }

  /**
   By default the result is what the comment in the code expects - all the non-empty pieces - exactly when the
   last piece is empty. Only a string that is empty or ends in the delimiter has that; and with a delimiter without
   a border every such string has it.
   */
  lemma AllKeptIff(s: string, d: string, pieces: seq<string>)
    requires d != "" && IsSplit(s, d, pieces)
    ensures NonEmpty(pieces[..|pieces| - 1]) == NonEmpty(pieces) <==> pieces[|pieces| - 1] == ""
    ensures NonEmpty(pieces[..|pieces| - 1]) == NonEmpty(pieces) ==> s == "" || EndsWith(s, d)
    ensures Unbordered(d) ==> (NonEmpty(pieces[..|pieces| - 1]) == NonEmpty(pieces) <==> s == "" || EndsWith(s, d))
  {
    NonEmptySnoc(pieces);
    if pieces[|pieces| - 1] == "" {
      EmptyLastEnds(s, d, pieces);
    }
    if Unbordered(d) {
      LastPieceEmptyIff(s, d, pieces);
    }
  }

  lemma EmptyLastEnds(s: string, d: string, pieces: seq<string>)
    requires IsSplit(s, d, pieces) && pieces[|pieces| - 1] == ""
    ensures s == "" || EndsWith(s, d)
  {
    var before := SplitEnds(s, d, pieces);
    assert |pieces| > 1 ==> s == before + d;
  }

  /** The last of two header rows is lost. */
  lemma LastRowLost()
    ensures IsSplit("a\r\nb", "\r\n", ["a", "b"]) && Unbordered("\r\n")
    ensures NonEmpty(["a", "b"][..1]) == ["a"] && NonEmpty(["a", "b"]) == ["a", "b"]
  {
    assert ["a", "b"][..1] == ["a"] && ["a"][..0] == [];
    assert Join(["b"], "\r\n") == "b" && Join(["a", "b"], "\r\n") == "a" + "\r\n" + Join(["b"], "\r\n");
    assert !Occurs("a\r\n", "\r\n", 0) by {
      assert "a\r\n"[0..2][0] == 'a';
    }
  }
}

/** Python's `str.split(sep)` and the facts about it that the pipeline relies on. */
module Text {
  import opened Wrappers

  /** `sep` occurs in `s` starting at position `j`. */
  predicate OccursAt(s: string, sep: string, j: int) {
    0 <= j && j + |sep| <= |s| && s[j..j + |sep|] == sep
  }

  predicate Contains(s: string, sep: string) {
    exists j :: 0 <= j <= |s| && OccursAt(s, sep, j)
  }

  /** `s.find(sep, from)`: the first occurrence of `sep` at or after `from`. */
  function IndexFrom(s: string, sep: string, from: nat): (r: Option<nat>)
    requires |sep| > 0
    decreases |s| - from
    ensures r.Some? ==> from <= r.value && OccursAt(s, sep, r.value)
    ensures r.Some? ==> forall j :: from <= j < r.value ==> !OccursAt(s, sep, j)
    ensures r.None? ==> forall j :: from <= j ==> !OccursAt(s, sep, j)
  {
    if from + |sep| > |s| then None
    else if s[from..from + |sep|] == sep then Some(from)
    else IndexFrom(s, sep, from + 1)
  }

  /** `s.split(sep)`: cut at each occurrence of `sep`, scanning left to right. */
  function Split(s: string, sep: string): (parts: seq<string>)
    requires |sep| > 0
    decreases |s|
  {
    match IndexFrom(s, sep, 0)
    case None => [s]
    case Some(i) => [s[..i]] + Split(s[i + |sep|..], sep)
  }

  /** `sep.join(parts)`. */
  function Join(parts: seq<string>, sep: string): string {
    if |parts| == 0 then ""
    else if |parts| == 1 then parts[0]
    else parts[0] + sep + Join(parts[1..], sep)
  }

  /** Splitting loses nothing: joining the pieces back gives the original text. */
  lemma {:induction false} JoinSplit(s: string, sep: string)
    requires |sep| > 0
    ensures Join(Split(s, sep), sep) == s
    decreases |s|
  {
    match IndexFrom(s, sep, 0)
    case None =>
    case Some(i) =>
      var rest := s[i + |sep|..];
      JoinSplit(rest, sep);
      assert Split(s, sep) == [s[..i]] + Split(rest, sep);
      assert Split(s, sep)[1..] == Split(rest, sep);
      assert s == s[..i] + sep + rest;
  }

  /** No piece contains the separator, and there is always at least one piece. */
  lemma {:induction false} SplitPieces(s: string, sep: string)
    requires |sep| > 0
    ensures |Split(s, sep)| >= 1
    ensures forall k :: 0 <= k < |Split(s, sep)| ==> !Contains(Split(s, sep)[k], sep)
    decreases |s|
  {
    match IndexFrom(s, sep, 0)
    case None =>
      forall j | OccursAt(s, sep, j) ensures false { }
    case Some(i) =>
      var rest := s[i + |sep|..];
      SplitPieces(rest, sep);
      var parts := Split(s, sep);
      assert parts == [s[..i]] + Split(rest, sep);
      forall j | OccursAt(s[..i], sep, j) ensures false {
        assert s[..i][j..j + |sep|] == s[j..j + |sep|];
        assert OccursAt(s, sep, j);
      }
      forall k | 0 <= k < |parts| ensures !Contains(parts[k], sep) {
        if k > 0 {
          assert parts[k] == Split(rest, sep)[k - 1];
        }
      }
  }

  /** The number of occurrences of the character `c` in `s`. */
  function CountChar(s: string, c: char): nat {
    if s == [] then 0 else (if s[0] == c then 1 else 0) + CountChar(s[1..], c)
  }

  lemma {:induction false} CountCharAppend(a: string, b: string, c: char)
    ensures CountChar(a + b, c) == CountChar(a, c) + CountChar(b, c)
    decreases |a|
  {
    if a != [] {
      assert (a + b)[1..] == a[1..] + b;
      CountCharAppend(a[1..], b, c);
    } else {
      assert a + b == b;
    }
  }

  lemma {:induction false} CountCharAbsent(s: string, c: char)
    requires forall j :: 0 <= j < |s| ==> s[j] != c
    ensures CountChar(s, c) == 0
    decreases |s|
  {
    if s != [] {
      CountCharAbsent(s[1..], c);
    }
  }

  /** Splitting on one character yields one more piece than there are occurrences of it. */
  lemma {:induction false} SplitCount(s: string, c: char)
    ensures |Split(s, [c])| == CountChar(s, c) + 1
    decreases |s|
  {
    var sep := [c];
    match IndexFrom(s, sep, 0)
    case None =>
      CountWithout(s, c);
    case Some(i) =>
      var rest := s[i + 1..];
      SplitCount(rest, c);
      CountFromFirst(s, c, i);
      assert Split(s, sep) == [s[..i]] + Split(rest, sep);
  }

  /** Without an occurrence of `[c]`, `c` is counted zero times. */
  lemma CountWithout(s: string, c: char)
    requires IndexFrom(s, [c], 0).None?
    ensures CountChar(s, c) == 0
  {
    forall j | 0 <= j < |s| ensures s[j] != c {
      assert !OccursAt(s, [c], j);
      assert s[j..j + 1] == [s[j]];
    }
    CountCharAbsent(s, c);
  }

  /** The first occurrence of `c` counts once, and the rest are after it. */
  lemma CountFromFirst(s: string, c: char, i: nat)
    requires IndexFrom(s, [c], 0) == Some(i)
    ensures CountChar(s, c) == CountChar(s[i + 1..], c) + 1
  {
    var sep := [c];
    var rest := s[i + 1..];
    forall j | 0 <= j < i ensures s[..i][j] != c {
      if s[j] == c {
        assert s[j..j + 1] == sep;
        assert OccursAt(s, sep, j);
      }
    }
    CountCharAbsent(s[..i], c);
    assert s[i..i + 1] == sep;
    var tail := [c] + rest;
    assert s == s[..i] + tail;
    CountCharAppend(s[..i], tail, c);
    assert tail[1..] == rest;
  }

  /** `s.split(sep)[-1]`: the text after the last separator. */
  function LastPiece(s: string, sep: string): string
    requires |sep| > 0
  {
    SplitPieces(s, sep);
    var parts := Split(s, sep);
    parts[|parts| - 1]
  }

  /** Past the first separator, the last piece of `s` is the last piece of the rest. */
  lemma LastPieceStep(s: string, sep: string, i: nat)
    requires |sep| > 0 && IndexFrom(s, sep, 0) == Some(i)
    ensures LastPiece(s, sep) == LastPiece(s[i + |sep|..], sep)
  {
  }

  /**
   * The last piece is a suffix of `s` that holds no separator; it is all of `s`
   * when `s` holds no separator, and otherwise the separator stands right before it.
   */
  lemma LastPieceShape(s: string, sep: string)
    requires |sep| > 0
    ensures |LastPiece(s, sep)| <= |s|
    ensures LastPiece(s, sep) == s[|s| - |LastPiece(s, sep)|..]
    ensures !Contains(LastPiece(s, sep), sep)
    ensures !Contains(s, sep) ==> LastPiece(s, sep) == s
    ensures Contains(s, sep) ==> OccursAt(s, sep, |s| - |LastPiece(s, sep)| - |sep|)
  {
    SplitPieces(s, sep);
    LastPieceSuffix(s, sep);
    if IndexFrom(s, sep, 0).None? {
      LastPieceWhole(s, sep);
    }
  }

  /** The last piece is a suffix of `s`, and a separator stands right before it unless it is all of `s`. */
  lemma {:induction false} LastPieceSuffix(s: string, sep: string)
    requires |sep| > 0
    ensures |LastPiece(s, sep)| <= |s|
    ensures LastPiece(s, sep) == s[|s| - |LastPiece(s, sep)|..]
    ensures IndexFrom(s, sep, 0).Some? ==> OccursAt(s, sep, |s| - |LastPiece(s, sep)| - |sep|)
    decreases |s|
  {
    var idx := IndexFrom(s, sep, 0);
    if idx.Some? {
      var i := idx.value;
      LastPieceSuffix(s[i + |sep|..], sep);
      LastPieceSuffixStep(s, sep, i);
    } else {
      LastPieceWhole(s, sep);
    }
  }

  /** One step of `LastPieceSuffix`: from the rest after the first separator back to `s`. */
  lemma LastPieceSuffixStep(s: string, sep: string, i: nat)
    requires |sep| > 0 && IndexFrom(s, sep, 0) == Some(i)
    requires var rest := s[i + |sep|..]; var r := LastPiece(rest, sep);
      && |r| <= |rest| && r == rest[|rest| - |r|..]
      && (IndexFrom(rest, sep, 0).Some? ==> OccursAt(rest, sep, |rest| - |r| - |sep|))
    ensures |LastPiece(s, sep)| <= |s|
    ensures LastPiece(s, sep) == s[|s| - |LastPiece(s, sep)|..]
    ensures OccursAt(s, sep, |s| - |LastPiece(s, sep)| - |sep|)
  {
    LastPieceStep(s, sep, i);
    var rest := s[i + |sep|..];
    var more := IndexFrom(rest, sep, 0).Some?;
    if !more {
      LastPieceWhole(rest, sep);
    }
    SuffixAfter(s, sep, i, LastPiece(rest, sep), more);
  }

  /**
   * A suffix `r` of the text after an occurrence of `sep` at `i` is a suffix of `s`,
   * and a separator stands right before it: either one inside the rest, or the one at `i`.
   */
  lemma SuffixAfter(s: string, sep: string, i: nat, r: string, more: bool)
    requires OccursAt(s, sep, i)
    requires var rest := s[i + |sep|..];
      && |r| <= |rest| && r == rest[|rest| - |r|..]
      && (more ==> OccursAt(rest, sep, |rest| - |r| - |sep|))
      && (!more ==> r == rest)
    ensures |r| <= |s| && r == s[|s| - |r|..]
    ensures OccursAt(s, sep, |s| - |r| - |sep|)
  {
    var rest := s[i + |sep|..];
    SuffixShift(s, i + |sep|, r);
    if more {
      ShiftOccurrence(s, sep, i + |sep|, |rest| - |r| - |sep|);
    }
  }

  /** A suffix of a suffix of `s` is a suffix of `s`. */
  lemma SuffixShift(s: string, off: nat, r: string)
    requires off <= |s|
    requires |r| <= |s| - off && r == s[off..][|s| - off - |r|..]
    ensures |r| <= |s| && r == s[|s| - |r|..]
  {
  }

  lemma LastPieceWhole(s: string, sep: string)
    requires |sep| > 0 && IndexFrom(s, sep, 0).None?
    ensures LastPiece(s, sep) == s
  {
  }

  lemma ShiftOccurrence(s: string, sep: string, off: nat, j: int)
    requires off <= |s| && OccursAt(s[off..], sep, j)
    ensures OccursAt(s, sep, off + j)
  {
  }
}

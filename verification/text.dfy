/**
 * The two string operations the checker relies on: the substring test
 * (Python's `needle in haystack`) and splitting on a separator
 * (Python's `s.split(sep)`, scanning left to right without overlaps).
 */
module Text {

  /** `t` occurs in `s` at position `i`. */
  ghost predicate OccursAt(s: string, t: string, i: int) {
    0 <= i && i + |t| <= |s| && s[i..i + |t|] == t
  }

  /** Python's `t in s`: some position of `s` starts a copy of `t`. */
  predicate Contains(s: string, t: string)
    decreases |s|
    ensures Contains(s, t) <==> exists i :: OccursAt(s, t, i)
  {
    if |s| < |t| then false
    else if s[..|t|] == t then
      assert OccursAt(s, t, 0);
      true
    else
      ContainsShift(s, t);
      Contains(s[1..], t)
  }

  /** Past position 0, an occurrence in `s` is an occurrence in `s[1..]`, one place earlier. */
  lemma ContainsShift(s: string, t: string)
    requires |s| >= |t| && s[..|t|] != t
    ensures |s| > 0
    ensures (exists i :: OccursAt(s, t, i)) <==> (exists j :: OccursAt(s[1..], t, j))
  {
    if exists i :: OccursAt(s, t, i) {
      var i :| OccursAt(s, t, i);
      assert i != 0;
      assert s[1..][i - 1..i - 1 + |t|] == s[i..i + |t|];
      assert OccursAt(s[1..], t, i - 1);
    }
    if exists j :: OccursAt(s[1..], t, j) {
      var j :| OccursAt(s[1..], t, j);
      assert s[1..][j..j + |t|] == s[j + 1..j + 1 + |t|];
      assert OccursAt(s, t, j + 1);
    }
  }

  /**
   * Python's `s.split(sep)` for a non-empty separator: the leftmost
   * occurrence of `sep` ends the first piece and scanning resumes after it.
   */
  function Split(s: string, sep: string): (pieces: seq<string>)
    requires |sep| > 0
    decreases |s|
    ensures |pieces| >= 1
  {
    if |s| < |sep| then [s]
    else if s[..|sep|] == sep then [""] + Split(s[|sep|..], sep)
    else
      var rest := Split(s[1..], sep);
      [[s[0]] + rest[0]] + rest[1..]
  }

  /** Python's `sep.join(pieces)`. */
  function Join(pieces: seq<string>, sep: string): string
    requires |pieces| >= 1
  {
    if |pieces| == 1 then pieces[0] else pieces[0] + sep + Join(pieces[1..], sep)
  }

  /** Joining the pieces with the separator gives back the string that was split. */
  lemma {:induction false} JoinSplit(s: string, sep: string)
    requires |sep| > 0
    ensures Join(Split(s, sep), sep) == s
    decreases |s|
  {
    if |s| < |sep| {
    } else if s[..|sep|] == sep {
      JoinSplit(s[|sep|..], sep);
      var rest := Split(s[|sep|..], sep);
      assert Split(s, sep) == [""] + rest;
      assert s == s[..|sep|] + s[|sep|..];
    } else {
      JoinSplit(s[1..], sep);
      var rest := Split(s[1..], sep);
      assert s == [s[0]] + s[1..];
      if |rest| == 1 {
        assert Split(s, sep) == [[s[0]] + rest[0]];
      } else {
        assert Split(s, sep)[1..] == rest[1..];
        assert Join(rest, sep) == rest[0] + sep + Join(rest[1..], sep);
      }
    }
  }

  /** The first piece of a split is a prefix of the string. */
  lemma {:induction false} SplitHeadIsPrefix(s: string, sep: string)
    requires |sep| > 0
    ensures |Split(s, sep)[0]| <= |s| && s[..|Split(s, sep)[0]|] == Split(s, sep)[0]
    decreases |s|
  {
    if |s| >= |sep| && s[..|sep|] != sep {
      SplitHeadIsPrefix(s[1..], sep);
    }
  }

  /** No piece of a split contains the separator. */
  lemma {:induction false} SplitPiecesFree(s: string, sep: string)
    requires |sep| > 0
    ensures forall k :: 0 <= k < |Split(s, sep)| ==> !Contains(Split(s, sep)[k], sep)
    decreases |s|
  {
    if |s| < |sep| {
      assert !Contains(s, sep);
    } else if s[..|sep|] == sep {
      SplitPiecesFree(s[|sep|..], sep);
      var rest := Split(s[|sep|..], sep);
      assert !Contains("", sep);
      assert forall k :: 1 <= k < |Split(s, sep)| ==> Split(s, sep)[k] == rest[k - 1];
    } else {
      SplitPiecesFree(s[1..], sep);
      SplitHeadIsPrefix(s[1..], sep);
      var rest := Split(s[1..], sep);
      var head := [s[0]] + rest[0];
      assert head == s[..|head|];
      if |head| >= |sep| {
        assert head[..|sep|] == s[..|sep|];
        assert head[1..] == rest[0];
      }
      assert !Contains(head, sep);
      assert forall k :: 1 <= k < |Split(s, sep)| ==> Split(s, sep)[k] == rest[k];
    }
  }

  /** A string in which the separator does not occur splits into itself alone. */
  lemma {:induction false} SplitWithoutSeparator(s: string, sep: string)
    requires |sep| > 0 && !Contains(s, sep)
    ensures Split(s, sep) == [s]
    decreases |s|
  {
    if |s| >= |sep| {
      SplitWithoutSeparator(s[1..], sep);
      assert [s[0]] + s[1..] == s;
    }
  }

  /** A split yields one piece exactly when the separator does not occur. */
  lemma {:induction false} SplitOnePiece(s: string, sep: string)
    requires |sep| > 0
    ensures |Split(s, sep)| == 1 <==> !Contains(s, sep)
    decreases |s|
  {
    if !Contains(s, sep) {
      SplitWithoutSeparator(s, sep);
    } else if |s| >= |sep| && s[..|sep|] != sep {
      SplitOnePiece(s[1..], sep);
    }
  }

  /**
   * The scan is leftmost: when there is more than one piece, the first
   * piece ends where the separator first occurs.
   */
  lemma {:induction false} SplitAtLeftmost(s: string, sep: string)
    requires |sep| > 0 && |Split(s, sep)| > 1
    ensures OccursAt(s, sep, |Split(s, sep)[0]|)
    ensures forall i :: 0 <= i < |Split(s, sep)[0]| ==> !OccursAt(s, sep, i)
    decreases |s|
  {
    if s[..|sep|] == sep {
      assert OccursAt(s, sep, 0);
    } else {
      SplitShift(s, sep);
      SplitAtLeftmost(s[1..], sep);
      var k := |Split(s, sep)[0]|;
      OccursShifted(s, sep, k - 1);
      forall i | 0 <= i < k ensures !OccursAt(s, sep, i) {
        if i > 0 {
          OccursShifted(s, sep, i - 1);
        }
      }
    }
  }

  /**
   * The scan is non-overlapping: after the first piece and the separator
   * that ends it, the remaining pieces are the split of what follows.
   */
  lemma {:induction false} SplitResumesAfterSeparator(s: string, sep: string)
    requires |sep| > 0 && |Split(s, sep)| > 1
    ensures |Split(s, sep)[0]| + |sep| <= |s|
    ensures Split(s, sep)[1..] == Split(s[|Split(s, sep)[0]| + |sep|..], sep)
    decreases |s|
  {
    if s[..|sep|] == sep {
      assert Split(s, sep)[0] == "" && Split(s, sep)[1..] == Split(s[|sep|..], sep);
    } else {
      SplitShift(s, sep);
      SplitResumesAfterSeparator(s[1..], sep);
      var k, rest := |Split(s, sep)[0]|, Split(s[1..], sep);
      var tail := s[k + |sep|..];
      assert |rest[0]| == k - 1;
      assert s[1..][k - 1 + |sep|..] == tail;
      assert rest[1..] == Split(tail, sep);
    }
  }

  /** Where no separator starts at position 0, the split of `s` is that of `s[1..]` with `s[0]` put in front. */
  lemma SplitShift(s: string, sep: string)
    requires |sep| > 0 && |s| >= |sep| && s[..|sep|] != sep
    ensures |Split(s, sep)| == |Split(s[1..], sep)|
    ensures Split(s, sep)[0] == [s[0]] + Split(s[1..], sep)[0]
    ensures Split(s, sep)[1..] == Split(s[1..], sep)[1..]
  {
  }

  /** An occurrence in `s[1..]` is an occurrence in `s` one place later. */
  lemma OccursShifted(s: string, t: string, j: int)
    requires |s| > 0 && j >= 0
    ensures OccursAt(s[1..], t, j) <==> OccursAt(s, t, j + 1)
  {
    if 0 <= j && j + 1 + |t| <= |s| {
      assert s[1..][j..j + |t|] == s[j + 1..j + 1 + |t|];
    }
  }

  /** A string without the first character of `t` does not contain `t`. */
  lemma NoFirstCharNoContains(s: string, t: string)
    requires |t| > 0 && t[0] !in s
    ensures !Contains(s, t)
  {
    forall i ensures !OccursAt(s, t, i) {
      if 0 <= i && i + |t| <= |s| {
        assert s[i..i + |t|][0] == s[i];
      }
    }
  }

  /** When `a` has no character that could start the separator, the first piece is `a`. */
  lemma {:induction false} SplitAtFirst(a: string, sep: string, b: string)
    requires |sep| > 0 && sep[0] !in a
    ensures Split(a + sep + b, sep) == [a] + Split(b, sep)
    decreases |a|
  {
    var s := a + sep + b;
    if a == [] {
      assert s[..|sep|] == sep && s[|sep|..] == b;
    } else {
      assert s[..|sep|][0] == a[0];
      assert s[1..] == a[1..] + sep + b;
      SplitAtFirst(a[1..], sep, b);
      assert [a[0]] + a[1..] == a;
    }
  }
}

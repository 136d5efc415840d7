/** Text helpers shared by the grammar loader and the seat-layout renderers:
    joining with a separator, Java's `String.split` on a literal separator,
    Java's `String.trim`, and character counting. */
module Strings {

  /** `parts` joined with `sep` between neighbours (no leading or trailing `sep`). */
  function Join(parts: seq<string>, sep: string): string
  {
    if |parts| == 0 then ""
    else if |parts| == 1 then parts[0]
    else parts[0] + sep + Join(parts[1..], sep)
  }

  /** Joining one more part at the end adds exactly one separator before it. */
  lemma {:induction false} JoinSnoc(parts: seq<string>, last: string, sep: string)
    requires |parts| > 0
    ensures Join(parts + [last], sep) == Join(parts, sep) + sep + last
  {
    if |parts| == 1 {
      assert (parts + [last])[1..] == [last];
    } else {
      assert (parts + [last])[1..] == parts[1..] + [last];
      JoinSnoc(parts[1..], last, sep);
    }
  }

  /** Extending the first part extends the joined text at its front. */
  lemma JoinExtendFirst(c: char, parts: seq<string>, sep: string)
    requires |parts| > 0
    ensures Join([[c] + parts[0]] + parts[1..], sep) == [c] + Join(parts, sep)
  {
    var ps := [[c] + parts[0]] + parts[1..];
    assert ps[1..] == parts[1..];
  }

  /** Each part followed by `sep`: the text a loop produces when it appends a
      part and then a separator, for every part. */
  function Terminated(parts: seq<string>, sep: string): string
  {
    if |parts| == 0 then "" else Terminated(parts[..|parts| - 1], sep) + parts[|parts| - 1] + sep
  }

  /** Dropping the one trailing separator of `Terminated` leaves the join. */
  lemma {:induction false} TerminatedIsJoinPlusSep(parts: seq<string>, sep: string)
    requires |parts| > 0
    ensures Terminated(parts, sep) == Join(parts, sep) + sep
  {
    var n := |parts|;
    if n > 1 {
      TerminatedIsJoinPlusSep(parts[..n - 1], sep);
      JoinSnoc(parts[..n - 1], parts[n - 1], sep);
      assert parts[..n - 1] + [parts[n - 1]] == parts;
    } else {
      assert parts[..0] == [];
    }
  }

  /** `sep` occurs in `s` starting at position `i`. */
  predicate OccursAt(s: string, sep: string, i: int)
  {
    0 <= i && i + |sep| <= |s| && s[i..i + |sep|] == sep
  }

  /** The pieces of `s` between the leftmost non-overlapping occurrences of
      `sep`, scanning left to right, empty pieces included. */
  function Pieces(s: string, sep: string): (ps: seq<string>)
    requires |sep| > 0
    ensures |ps| >= 1
    ensures |ps| - 1 <= |s|
    decreases |s|
  {
    if |s| < |sep| then [s]
    else if s[..|sep|] == sep then [""] + Pieces(s[|sep|..], sep)
    else
      var rest := Pieces(s[1..], sep);
      [[s[0]] + rest[0]] + rest[1..]
  }

  /** Java's `split` with limit 0 removes every empty piece at the end. */
  function DropTrailingEmpty(ps: seq<string>): (r: seq<string>)
    ensures |r| <= |ps| && r == ps[..|r|]
    ensures r == [] || r[|r| - 1] != ""
    ensures forall k :: |r| <= k < |ps| ==> ps[k] == ""
  {
    if ps != [] && ps[|ps| - 1] == "" then DropTrailingEmpty(ps[..|ps| - 1]) else ps
  }

  /** Java's `s.split(sep)` for a separator with no regular-expression
      metacharacters: when `sep` does not occur the result is `[s]` (even for
      the empty `s`); otherwise the pieces with trailing empty ones dropped. */
  function Split(s: string, sep: string): seq<string>
    requires |sep| > 0
  {
    var ps := Pieces(s, sep);
    if |ps| == 1 then ps else DropTrailingEmpty(ps)
  }

  /** Joining the pieces back with the separator gives the original text. */
  lemma {:induction false} JoinPieces(s: string, sep: string)
    requires |sep| > 0
    ensures Join(Pieces(s, sep), sep) == s
    decreases |s|
  {
    if |s| < |sep| {
    } else if s[..|sep|] == sep {
      JoinPieces(s[|sep|..], sep);
      var ps := [""] + Pieces(s[|sep|..], sep);
      assert ps[1..] == Pieces(s[|sep|..], sep);
      assert s == s[..|sep|] + s[|sep|..];
    } else {
      JoinPieces(s[1..], sep);
      JoinExtendFirst(s[0], Pieces(s[1..], sep), sep);
      assert s == [s[0]] + s[1..];
    }
  }

  /** A text without any occurrence of `sep` is a single piece. */
  lemma {:induction false} PiecesWithoutSeparator(s: string, sep: string)
    requires |sep| > 0
    requires forall i :: !OccursAt(s, sep, i)
    ensures Pieces(s, sep) == [s]
    decreases |s|
  {
    if |s| >= |sep| {
      assert !OccursAt(s, sep, 0);
      forall i ensures !OccursAt(s[1..], sep, i) {
        if 0 <= i && i + |sep| <= |s[1..]| {
          assert s[1..][i..i + |sep|] == s[i + 1..i + 1 + |sep|];
        }
        assert !OccursAt(s, sep, i + 1);
      }
      PiecesWithoutSeparator(s[1..], sep);
      assert [s[0]] + s[1..] == s;
    }
  }

  /** A single text splits into exactly one piece only when the separator
      does not occur in it. */
  lemma {:induction false} SeparatorGivesTwoPieces(s: string, sep: string, i: int)
    requires |sep| > 0
    requires OccursAt(s, sep, i)
    ensures |Pieces(s, sep)| >= 2
    decreases |s|
  {
    assert |s| >= |sep|;
    if s[..|sep|] == sep {
      assert Pieces(s, sep) == [""] + Pieces(s[|sep|..], sep);
    } else {
      assert i > 0;
      assert s[1..][i - 1..i - 1 + |sep|] == s[i..i + |sep|];
      SeparatorGivesTwoPieces(s[1..], sep, i - 1);
      var rest := Pieces(s[1..], sep);
      assert Pieces(s, sep) == [[s[0]] + rest[0]] + rest[1..];
    }
  }

  /** The first occurrence of `sep` splits off the text before it:
      `left + sep + rest` has `left` as first piece when `sep` does not occur
      in `left + sep` before position `|left|`. */
  lemma {:induction false} PiecesAtFirstSeparator(left: string, sep: string, rest: string)
    requires |sep| > 0
    requires forall i :: i < |left| ==> !OccursAt(left + sep, sep, i)
    ensures Pieces(left + sep + rest, sep) == [left] + Pieces(rest, sep)
    decreases |left|
  {
    var s := left + sep + rest;
    if |left| == 0 {
      assert s == sep + rest;
      assert s[..|sep|] == sep;
      assert s[|sep|..] == rest;
    } else {
      assert !OccursAt(left + sep, sep, 0);
      assert (left + sep)[..|sep|] == s[..|sep|];
      forall i | i < |left[1..]| ensures !OccursAt(left[1..] + sep, sep, i) {
        if 0 <= i && i + |sep| <= |left[1..] + sep| {
          assert (left[1..] + sep)[i..i + |sep|] == (left + sep)[i + 1..i + 1 + |sep|];
        }
        assert !OccursAt(left + sep, sep, i + 1);
      }
      PiecesAtFirstSeparator(left[1..], sep, rest);
      assert s[1..] == left[1..] + sep + rest;
      assert [s[0]] + left[1..] == left;
    }
  }

  /** No piece of a split at a one-character separator contains that character. */
  lemma {:induction false} PiecesAvoidSeparator(s: string, c: char)
    ensures forall p, j :: p in Pieces(s, [c]) && 0 <= j < |p| ==> p[j] != c
    decreases |s|
  {
    if |s| >= 1 {
      PiecesAvoidSeparator(s[1..], c);
      var rest := Pieces(s[1..], [c]);
      if s[..1] != [c] {
        assert s[0] != c;
        forall p, j | p in [[s[0]] + rest[0]] + rest[1..] && 0 <= j < |p| ensures p[j] != c {
          if p in rest[1..] {
            assert p in rest;
          } else {
            assert p == [s[0]] + rest[0];
            assert rest[0] in rest;
          }
        }
      } else {
        assert s[1..] == s[|[c]|..];
      }
    }
  }

  /** Splitting at one character: the pieces contain no separator, their join
      is a prefix of the text, and only separators follow that prefix. */
  lemma SplitAtChar(s: string, c: char)
    ensures var ps := Split(s, [c]);
      (forall p, j :: p in ps && 0 <= j < |p| ==> p[j] != c) &&
      Join(ps, [c]) <= s &&
      (forall k :: |Join(ps, [c])| <= k < |s| ==> s[k] == c)
  {
    var all := Pieces(s, [c]);
    JoinPieces(s, [c]);
    PiecesAvoidSeparator(s, c);
    var ps := Split(s, [c]);
    if |all| > 1 {
      DroppedJoin(all, [c]);
      forall p | p in ps ensures p in all {
        assert ps == all[..|ps|];
      }
    }
  }

  /** Dropping trailing empty pieces shortens the join by whole separators
      only. */
  lemma {:induction false} DroppedJoin(ps: seq<string>, sep: string)
    requires |sep| == 1
    ensures var r := DropTrailingEmpty(ps);
      Join(r, sep) <= Join(ps, sep) &&
      forall k :: |Join(r, sep)| <= k < |Join(ps, sep)| ==> Join(ps, sep)[k] == sep[0]
    decreases |ps|
  {
    if ps != [] && ps[|ps| - 1] == "" {
      var init := ps[..|ps| - 1];
      DroppedJoin(init, sep);
      if |init| == 0 {
      } else {
        JoinSnoc(init, "", sep);
        assert init + [""] == ps;
      }
    }
  }

  /** Java's `Character` test used by `String.trim`: any character at or
      below U+0020 counts as blank. */
  predicate IsBlank(c: char)
  {
    c <= ' '
  }

  /** Number of blanks at the start of `s`. */
  function LeadingBlanks(s: string): (n: nat)
    ensures n <= |s|
    ensures forall k :: 0 <= k < n ==> IsBlank(s[k])
    ensures n == |s| || !IsBlank(s[n])
  {
    if |s| > 0 && IsBlank(s[0]) then 1 + LeadingBlanks(s[1..]) else 0
  }

  /** Number of blanks at the end of `s`. */
  function TrailingBlanks(s: string): (n: nat)
    ensures n <= |s|
    ensures forall k :: |s| - n <= k < |s| ==> IsBlank(s[k])
    ensures n == |s| || !IsBlank(s[|s| - n - 1])
  {
    if |s| > 0 && IsBlank(s[|s| - 1]) then 1 + TrailingBlanks(s[..|s| - 1]) else 0
  }

  /** Java's `String.trim`: leading blanks removed, then trailing ones. */
  function Trim(s: string): string
  {
    var t := s[LeadingBlanks(s)..];
    t[..|t| - TrailingBlanks(t)]
  }

  /** The trimmed text is the slice of `s` between a blank prefix and a blank
      suffix, and it neither starts nor ends with a blank. */
  lemma TrimSpec(s: string)
    ensures LeadingBlanks(s) + |Trim(s)| <= |s|
    ensures Trim(s) == s[LeadingBlanks(s)..LeadingBlanks(s) + |Trim(s)|]
    ensures forall k :: LeadingBlanks(s) + |Trim(s)| <= k < |s| ==> IsBlank(s[k])
    ensures Trim(s) == [] || (!IsBlank(Trim(s)[0]) && !IsBlank(Trim(s)[|Trim(s)| - 1]))
  {
    TrimIsSlice(s);
    TrimEnds(s);
  }

  /** `Trim(s)` is `s` without its leading and trailing blanks. */
  lemma TrimIsSlice(s: string)
    ensures LeadingBlanks(s) + |Trim(s)| <= |s|
    ensures Trim(s) == s[LeadingBlanks(s)..LeadingBlanks(s) + |Trim(s)|]
    ensures forall k :: LeadingBlanks(s) + |Trim(s)| <= k < |s| ==> IsBlank(s[k])
  {
    var a := LeadingBlanks(s);
    var t := s[a..];
    var r := t[..|t| - TrailingBlanks(t)];
    assert r == Trim(s);
    forall k | a + |r| <= k < |s| ensures IsBlank(s[k]) {
      assert s[k] == t[k - a];
    }
  }

  /** `Trim(s)` neither starts nor ends with a blank. */
  lemma TrimEnds(s: string)
    ensures Trim(s) == [] || (!IsBlank(Trim(s)[0]) && !IsBlank(Trim(s)[|Trim(s)| - 1]))
  {
    var a := LeadingBlanks(s);
    var t := s[a..];
    var b := TrailingBlanks(t);
    var r := t[..|t| - b];
    assert r == Trim(s);
    if r != [] {
      assert r[0] == s[a];
      assert r[|r| - 1] == t[|t| - b - 1];
    }
  }

  /** Number of occurrences of `c` in `s`. */
  function Count(s: string, c: char): nat
  {
    if |s| == 0 then 0 else Count(s[..|s| - 1], c) + (if s[|s| - 1] == c then 1 else 0)
  }

  /** Counting distributes over concatenation. */
  lemma {:induction false} CountAppend(s: string, t: string, c: char)
    ensures Count(s + t, c) == Count(s, c) + Count(t, c)
    decreases |t|
  {
    if |t| > 0 {
      CountAppend(s, t[..|t| - 1], c);
      assert (s + t)[..|s + t| - 1] == s + t[..|t| - 1];
    } else {
      assert s + t == s;
    }
  }

  /** A character that does not occur is at no position. */
  lemma {:induction false} CountZero(s: string, c: char)
    requires Count(s, c) == 0
    ensures forall k :: 0 <= k < |s| ==> s[k] != c
  {
    if |s| > 0 {
      CountZero(s[..|s| - 1], c);
      assert forall k :: 0 <= k < |s| - 1 ==> s[k] == s[..|s| - 1][k];
    }
  }
}

/**
 * The string operations the survey pipeline is built from: Python's
 * `", ".join(...)`, `s.split(", ")`, the substring test `pat in s` and
 * `str.lower()`.
 */
module Text {

  /** The delimiter between the values of a multi-select answer. */
  const Sep: string := ", "

  /** Python's `pat in s`: `pat` occurs somewhere in `s` as a substring. */
  predicate Contains(s: string, pat: string)
    ensures Contains(s, pat) ==> |pat| <= |s|
    decreases |s|
  {
    pat <= s || (|s| > 0 && Contains(s[1..], pat))
  }

  /** Python's `", ".join(parts)`; the join of no parts is the empty string. */
  function Join(parts: seq<string>): (r: string)
    ensures parts != [] ==> parts[0] <= r
    ensures |parts| >= 2 ==> parts[0] + Sep <= r
    ensures |r| >= 2 * (|parts| - 1)
  {
    if parts == [] then ""
    else if |parts| == 1 then parts[0]
    else parts[0] + Sep + Join(parts[1..])
  }

  /** `pat` occurs in `s` starting at position `i`. */
  predicate OccursAt(s: string, pat: string, i: int)
  {
    0 <= i && i + |pat| <= |s| && s[i..i + |pat|] == pat
  }

  /** The substring test agrees with its definition: `pat` is some slice of `s`. */
  lemma {:induction false} ContainsIffOccurs(s: string, pat: string)
    ensures Contains(s, pat) <==> exists i :: OccursAt(s, pat, i)
    decreases |s|
  {
    if pat <= s {
      assert OccursAt(s, pat, 0);
    }
    if s != [] {
      ContainsIffOccurs(s[1..], pat);
      if exists i :: OccursAt(s[1..], pat, i) {
        var i :| OccursAt(s[1..], pat, i);
        assert s[1..][i..i + |pat|] == s[i + 1..i + 1 + |pat|];
        assert OccursAt(s, pat, i + 1);
      }
      if exists i :: OccursAt(s, pat, i) {
        var i :| OccursAt(s, pat, i);
        if i == 0 {
          assert pat <= s;
        } else {
          assert s[1..][i - 1..i - 1 + |pat|] == s[i..i + |pat|];
          assert OccursAt(s[1..], pat, i - 1);
        }
      }
    }
  }

  /** `s` begins with the delimiter ", ". */
  predicate StartsWithSep(s: string)
  {
    |s| >= 2 && s[0] == ',' && s[1] == ' '
  }

  /** The delimiter occurs somewhere in `s`. */
  predicate HasSep(s: string)
    decreases |s|
  {
    StartsWithSep(s) || (|s| > 0 && HasSep(s[1..]))
  }

  /** Holding the delimiter is the substring test `", " in s`. */
  lemma {:induction false} HasSepIsContains(s: string)
    ensures HasSep(s) <==> Contains(s, Sep)
    decreases |s|
  {
    if |s| >= 2 {
      assert Sep <= s <==> s[..2] == Sep;
      assert s[..2] == [s[0], s[1]];
    }
    if s != [] {
      HasSepIsContains(s[1..]);
    }
  }

  /**
   * Python's `s.split(", ")`: the delimiter is searched from the left and
   * every piece between two occurrences becomes one token. There is always
   * at least one piece, so the empty string splits into one empty token.
   */
  function Split(s: string): (pieces: seq<string>)
    ensures |pieces| >= 1
    ensures s == "" ==> pieces == [""]
    decreases |s|
  {
    if StartsWithSep(s) then [""] + Split(s[2..])
    else if s == [] then [""]
    else
      var rest := Split(s[1..]);
      [[s[0]] + rest[0]] + rest[1..]
  }

  /** Prepending a character to the first part prepends it to the join. */
  lemma JoinConsHead(c: char, parts: seq<string>)
    requires |parts| >= 1
    ensures Join([[c] + parts[0]] + parts[1..]) == [c] + Join(parts)
  {
    var first := [c] + parts[0];
    var ps := [first] + parts[1..];
    assert ps[0] == first && ps[1..] == parts[1..];
    if |parts| > 1 {
      var rest := Join(parts[1..]);
      assert |ps| > 1;
      assert Join(ps) == ps[0] + Sep + Join(ps[1..]);
      assert Join(parts) == parts[0] + Sep + rest;
      AppendAssoc([c], parts[0], Sep);
      AppendAssoc([c], parts[0] + Sep, rest);
    }
  }

  lemma AppendAssoc<T>(a: seq<T>, b: seq<T>, d: seq<T>)
    ensures (a + b) + d == a + (b + d)
  {
  }

  /** Joining the pieces with ", " gives the string back. */
  lemma {:induction false} SplitJoinsBack(s: string)
    ensures Join(Split(s)) == s
    decreases |s|
  {
    if StartsWithSep(s) {
      SplitJoinsBack(s[2..]);
      assert s == Sep + s[2..];
      assert ([""] + Split(s[2..]))[1..] == Split(s[2..]);
    } else if s != [] {
      SplitJoinsBack(s[1..]);
      JoinConsHead(s[0], Split(s[1..]));
      assert s == [s[0]] + s[1..];
    }
  }

  /** No piece holds the delimiter. */
  lemma {:induction false} SplitPiecesClean(s: string)
    ensures forall i :: 0 <= i < |Split(s)| ==> !HasSep(Split(s)[i])
    decreases |s|
  {
    if StartsWithSep(s) {
      SplitPiecesClean(s[2..]);
      CleanAfterSep(s);
    } else if s != [] {
      SplitPiecesClean(s[1..]);
      CleanAfterChar(s);
    }
  }

  lemma CleanAfterSep(s: string)
    requires StartsWithSep(s)
    requires forall i :: 0 <= i < |Split(s[2..])| ==> !HasSep(Split(s[2..])[i])
    ensures forall i :: 0 <= i < |Split(s)| ==> !HasSep(Split(s)[i])
  {
    var rest := Split(s[2..]);
    assert forall i :: 1 <= i < |Split(s)| ==> Split(s)[i] == rest[i - 1];
  }

  lemma CleanAfterChar(s: string)
    requires s != [] && !StartsWithSep(s)
    requires forall i :: 0 <= i < |Split(s[1..])| ==> !HasSep(Split(s[1..])[i])
    ensures forall i :: 0 <= i < |Split(s)| ==> !HasSep(Split(s)[i])
  {
    var rest := Split(s[1..]);
    var first := [s[0]] + rest[0];
    assert !HasSep(first) by {
      assert !StartsWithSep(first) by {
        FirstPieceHead(s[1..]);
      }
      assert first[1..] == rest[0];
    }
    assert Split(s) == [first] + rest[1..];
    assert forall i :: 1 <= i < |Split(s)| ==> Split(s)[i] == rest[i];
  }

  /** The first piece of a split starts where the string does. */
  lemma FirstPieceHead(s: string)
    ensures Split(s)[0] != [] ==> Split(s)[0][0] == s[0]
  {
    if Split(s)[0] != [] {
      SplitJoinsBack(s);
      JoinHead(Split(s));
    }
  }

  /** A join starts with the first character of its first part. */
  lemma JoinHead(parts: seq<string>)
    requires |parts| >= 1 && parts[0] != []
    ensures Join(parts)[0] == parts[0][0]
  {
    if |parts| > 1 {
      assert Join(parts) == parts[0] + (Sep + Join(parts[1..]));
    }
  }

  /** A string that holds no delimiter splits into itself alone. */
  lemma {:induction false} SplitWithoutSep(s: string)
    requires !HasSep(s)
    ensures Split(s) == [s]
    decreases |s|
  {
    if s != [] {
      SplitWithoutSep(s[1..]);
      assert [s[0]] + s[1..] == s;
    }
  }

  /**
   * Splitting `x + ", " + y` splits `x` and `y` apart: no delimiter can
   * straddle the boundary, because ", " cannot overlap itself.
   */
  lemma {:induction false} SplitAround(x: string, y: string)
    ensures Split(x + Sep + y) == Split(x) + Split(y)
    decreases |x|
  {
    var s := x + Sep + y;
    if x == [] {
      assert StartsWithSep(s) && s[2..] == y by {
        assert s == Sep + y;
      }
    } else if StartsWithSep(x) {
      assert StartsWithSep(s) && s[2..] == x[2..] + Sep + y;
      SplitAround(x[2..], y);
      AppendAssoc([""], Split(x[2..]), Split(y));
    } else {
      assert !StartsWithSep(s) && s[0] == x[0] && s[1..] == x[1..] + Sep + y by {
        assert s[0] == x[0];
        assert |x| == 1 ==> s[1] == ',';
        assert |x| >= 2 ==> s[1] == x[1];
      }
      SplitAround(x[1..], y);
      var r := Split(x[1..]);
      assert (r + Split(y))[0] == r[0] && (r + Split(y))[1..] == r[1..] + Split(y);
      AppendAssoc([[x[0]] + r[0]], r[1..], Split(y));
    }
  }

  /**
   * Splitting what `", ".join` built gives the parts back, as long as there
   * is at least one part and no part holds the delimiter itself.
   */
  lemma {:induction false} SplitJoin(parts: seq<string>)
    requires |parts| >= 1
    requires forall i :: 0 <= i < |parts| ==> !HasSep(parts[i])
    ensures Split(Join(parts)) == parts
    decreases |parts|
  {
    if |parts| == 1 {
      SplitWithoutSep(parts[0]);
    } else {
      var rest := parts[1..];
      assert forall i :: 0 <= i < |rest| ==> !HasSep(rest[i]) by {
        assert forall i :: 0 <= i < |rest| ==> rest[i] == parts[i + 1];
      }
      assert Split(Join(rest)) == rest by {
        SplitJoin(rest);
      }
      assert Split(parts[0]) == [parts[0]] by {
        SplitWithoutSep(parts[0]);
      }
      SplitAround(parts[0], Join(rest));
      assert parts == [parts[0]] + rest;
    }
  }

  /** A substring of the left operand is a substring of the concatenation. */
  lemma {:induction false} ContainsInLeft(a: string, b: string, pat: string)
    requires Contains(a, pat)
    ensures Contains(a + b, pat)
    decreases |a|
  {
    if !(pat <= a) {
      ContainsInLeft(a[1..], b, pat);
      assert (a + b)[1..] == a[1..] + b;
    }
  }

  /** A substring of the right operand is a substring of the concatenation. */
  lemma {:induction false} ContainsInRight(a: string, b: string, pat: string)
    requires Contains(b, pat)
    ensures Contains(a + b, pat)
    decreases |a|
  {
    if a != [] {
      ContainsInRight(a[1..], b, pat);
      assert (a + b)[1..] == a[1..] + b;
      assert |a + b| > 0 && Contains((a + b)[1..], pat);
    } else {
      assert a + b == b;
    }
  }

  /** Every part of a join is a substring of it, so anything inside a part is too. */
  lemma {:induction false} ContainsJoin(parts: seq<string>, i: nat, pat: string)
    requires i < |parts| && Contains(parts[i], pat)
    ensures Contains(Join(parts), pat)
    decreases |parts|
  {
    if |parts| > 1 {
      if i == 0 {
        ContainsInLeft(parts[0], Sep + Join(parts[1..]), pat);
        assert parts[0] + Sep + Join(parts[1..]) == parts[0] + (Sep + Join(parts[1..]));
      } else {
        ContainsJoin(parts[1..], i - 1, pat);
        ContainsInRight(parts[0] + Sep, Join(parts[1..]), pat);
      }
    }
  }

  /** `str.lower()` on one character, for the ASCII letters A to Z. */
  function LowerChar(c: char): char
  {
    if 'A' <= c <= 'Z' then (c as int + 32) as char else c
  }

  /** `str.lower()` on a string. */
  function Lower(s: string): (r: string)
    ensures |r| == |s|
    ensures forall i :: 0 <= i < |s| ==> !('A' <= r[i] <= 'Z')
  {
    seq(|s|, i requires 0 <= i < |s| => LowerChar(s[i]))
  }

  /** Two characters are the same letter in different case, or are equal. */
  predicate SameIgnoringCase(c: char, d: char)
  {
    c == d
    || ('A' <= c <= 'Z' && d as int == c as int + 32)
    || ('A' <= d <= 'Z' && c as int == d as int + 32)
  }

  /**
   * Lower-casing maps two strings to the same string exactly when they
   * differ only in the case of their letters.
   */
  lemma LowerEqualIffCaseVariant(a: string, b: string)
    ensures Lower(a) == Lower(b) <==>
              |a| == |b| && forall i :: 0 <= i < |a| ==> SameIgnoringCase(a[i], b[i])
  {
    if |a| == |b| {
      if Lower(a) == Lower(b) {
        forall i | 0 <= i < |a| ensures SameIgnoringCase(a[i], b[i]) {
          assert Lower(a)[i] == Lower(b)[i];
        }
      }
      if forall i :: 0 <= i < |a| ==> SameIgnoringCase(a[i], b[i]) {
        forall i | 0 <= i < |a| ensures Lower(a)[i] == Lower(b)[i] {
          assert SameIgnoringCase(a[i], b[i]);
        }
      }
    }
  }

  /** Lower-casing twice is lower-casing once. */
  lemma LowerIdempotent(s: string)
    ensures Lower(Lower(s)) == Lower(s)
  {
  }
}

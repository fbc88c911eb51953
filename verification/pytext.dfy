/**
 * The Python `str` operations the converter relies on, over `seq<char>`:
 * `startswith`, substring `in`, `sep.join`, `split(sep)`, `strip()` and
 * `isdigit()`.
 */
module PyText {

  /** `s.startswith(t)`. */
  predicate StartsWith(s: string, t: string) {
    |t| <= |s| && s[..|t|] == t
  }

  /** `t in s`: `t` occurs in `s` as a contiguous substring. */
  predicate Contains(s: string, t: string)
    decreases |s|
  {
    StartsWith(s, t) || (|s| > 0 && Contains(s[1..], t))
  }

  /** `sep.join(xs)`; the join of no pieces is the empty string. */
  function Join(xs: seq<string>, sep: string): string
  {
    if |xs| == 0 then ""
    else if |xs| == 1 then xs[0]
    else xs[0] + sep + Join(xs[1..], sep)
  }

  /**
   * `s.split(sep)` for a non-empty separator: the pieces between the
   * leftmost non-overlapping occurrences of `sep`. There is always at least
   * one piece, joining the pieces back gives `s`, and there is a second
   * piece exactly when `sep` occurs in `s`.
   */
  function Split(s: string, sep: string): (r: seq<string>)
    requires |sep| > 0
    ensures |r| >= 1
    ensures Join(r, sep) == s
    ensures |r| >= 2 <==> Contains(s, sep)
    decreases |s|
  {
    if |s| < |sep| then
      ShortNeverContains(s, sep);
      [s]
    else if s[..|sep|] == sep then
      [""] + Split(s[|sep|..], sep)
    else
      var rest := Split(s[1..], sep);
      JoinGrowHead([s[0]], rest, sep);
      [[s[0]] + rest[0]] + rest[1..]
  }

  /** A string shorter than `t` cannot contain it. */
  lemma {:induction false} ShortNeverContains(s: string, t: string)
    requires |s| < |t|
    ensures !Contains(s, t)
    decreases |s|
  {
    if |s| > 0 {
      ShortNeverContains(s[1..], t);
    }
  }

  /** Prefixing the first piece prefixes the join. */
  lemma JoinGrowHead(a: string, xs: seq<string>, sep: string)
    requires |xs| >= 1
    ensures Join([a + xs[0]] + xs[1..], sep) == a + Join(xs, sep)
  {
    var ys := [a + xs[0]] + xs[1..];
    if |xs| > 1 {
      assert ys[1..] == xs[1..];
    }
  }

  /** Python's `str.isspace` for one character (every code point it accepts). */
  predicate IsSpace(c: char) {
    var n := c as int;
    || (9 <= n <= 13) || (28 <= n <= 32) || n == 0x85 || n == 0xA0
    || n == 0x1680 || (0x2000 <= n <= 0x200A) || n == 0x2028 || n == 0x2029
    || n == 0x202F || n == 0x205F || n == 0x3000
  }

  /** `s.lstrip()`: drops leading whitespace. */
  function TrimStart(s: string): string
    decreases |s|
  {
    if |s| > 0 && IsSpace(s[0]) then TrimStart(s[1..]) else s
  }

  /** `lstrip()` keeps a suffix, cuts only whitespace, and leaves no whitespace in front. */
  lemma {:induction false} TrimStartFacts(s: string)
    ensures |TrimStart(s)| <= |s| && TrimStart(s) == s[|s| - |TrimStart(s)|..]
    ensures AllSpace(s[..|s| - |TrimStart(s)|])
    ensures |TrimStart(s)| == 0 || !IsSpace(TrimStart(s)[0])
    decreases |s|
  {
    if |s| > 0 && IsSpace(s[0]) {
      var r := TrimStart(s[1..]);
      TrimStartFacts(s[1..]);
      assert s[..|s| - |r|] == [s[0]] + s[1..][..|s| - 1 - |r|];
    }
  }

  /** `s.rstrip()`: drops trailing whitespace. */
  function TrimEnd(s: string): string
    decreases |s|
  {
    if |s| > 0 && IsSpace(s[|s| - 1]) then TrimEnd(s[..|s| - 1]) else s
  }

  /** `rstrip()` keeps a prefix, cuts only whitespace, and leaves no whitespace behind. */
  lemma {:induction false} TrimEndFacts(s: string)
    ensures |TrimEnd(s)| <= |s| && TrimEnd(s) == s[..|TrimEnd(s)|]
    ensures AllSpace(s[|TrimEnd(s)|..])
    ensures |TrimEnd(s)| == 0 || !IsSpace(TrimEnd(s)[|TrimEnd(s)| - 1])
    decreases |s|
  {
    if |s| > 0 && IsSpace(s[|s| - 1]) {
      var r := TrimEnd(s[..|s| - 1]);
      TrimEndFacts(s[..|s| - 1]);
      assert s[|r|..] == s[..|s| - 1][|r|..] + [s[|s| - 1]];
    }
  }

  /** `s.strip()`: whitespace dropped at both ends. */
  function Strip(s: string): string
  {
    TrimEnd(TrimStart(s))
  }

  /** What `strip()` returns is no longer than its input and neither starts nor ends with whitespace. */
  lemma StripEnds(s: string)
    ensures |Strip(s)| <= |s|
    ensures |Strip(s)| == 0 || (!IsSpace(Strip(s)[0]) && !IsSpace(Strip(s)[|Strip(s)| - 1]))
  {
    var t := TrimStart(s);
    TrimStartFacts(s);
    TrimEndFacts(t);
    if |Strip(s)| > 0 {
      assert Strip(s)[0] == t[0];
    }
  }

  /**
   * What `strip()` keeps: a contiguous part of `s` with only whitespace
   * around it; it is empty exactly when `s` is all whitespace.
   */
  lemma StripMeaning(s: string)
    ensures exists i :: StrippedAt(s, Strip(s), i)
    ensures |Strip(s)| == 0 <==> AllSpace(s)
  {
    var i := |s| - |TrimStart(s)|;
    StripAt(s);
    StripEnds(s);
    var r := Strip(s);
    if |r| > 0 {
      assert s[i] == r[0];
    } else {
      AllSpaceAround(s, i);
    }
  }

  /** A string all whitespace on both sides of a cut is all whitespace. */
  lemma AllSpaceAround(s: string, i: nat)
    requires i <= |s| && AllSpace(s[..i]) && AllSpace(s[i..])
    ensures AllSpace(s)
  {
    forall k | 0 <= k < |s|
      ensures IsSpace(s[k])
    {
      if k < i {
        assert s[k] == s[..i][k];
      } else {
        assert s[k] == s[i..][k - i];
      }
    }
  }

  /** `strip()` keeps the part of `s` that starts where `lstrip()` stops. */
  lemma StripAt(s: string)
    ensures StrippedAt(s, Strip(s), |s| - |TrimStart(s)|)
  {
    TrimStartFacts(s);
    TrimEndFacts(TrimStart(s));
    StrippedWithin(s, TrimStart(s), Strip(s));
  }

  /** A prefix `r` of a suffix `t` of `s`, with whitespace cut on both sides, is stripped from `s`. */
  lemma StrippedWithin(s: string, t: string, r: string)
    requires |t| <= |s| && t == s[|s| - |t|..] && AllSpace(s[..|s| - |t|])
    requires |r| <= |t| && r == t[..|r|] && AllSpace(t[|r|..])
    ensures StrippedAt(s, r, |s| - |t|)
  {
    SliceOfSuffix(s, |s| - |t|, |r|);
  }

  /** Slicing a suffix `s[i..]` at `n` is slicing `s` at `i + n`. */
  lemma SliceOfSuffix<T>(s: seq<T>, i: nat, n: nat)
    requires i + n <= |s|
    ensures s[i..][..n] == s[i..i + n]
    ensures s[i..][n..] == s[i + n..]
  {
  }

  /** Every character of `x` is whitespace. */
  predicate AllSpace(x: string) {
    forall k :: 0 <= k < |x| ==> IsSpace(x[k])
  }

  /** `r` is `s[i..]` cut short, with only whitespace cut away on either side. */
  predicate StrippedAt(s: string, r: string, i: int) {
    && 0 <= i <= |s| - |r|
    && r == s[i..i + |r|]
    && AllSpace(s[..i])
    && AllSpace(s[i + |r|..])
  }

  /**
   * `str.isdigit`, restricted to ASCII: a non-empty run of `'0'..'9'`.
   * Python also accepts other Unicode digits (superscripts, other scripts).
   */
  predicate IsDigits(s: string) {
    |s| > 0 && forall k :: 0 <= k < |s| ==> '0' <= s[k] <= '9'
  }

  /** Stripping twice is stripping once. */
  lemma StripIdempotent(s: string)
    ensures Strip(Strip(s)) == Strip(s)
  {
    var r := Strip(s);
    StripEnds(s);
    assert TrimStart(r) == r;
    assert TrimEnd(r) == r;
  }

  /** The first piece of a join is a prefix of it. */
  lemma JoinStartsWithHead(xs: seq<string>, sep: string)
    requires |xs| >= 1
    ensures StartsWith(Join(xs, sep), xs[0])
  {
  }

  /** A prefix of a string that starts with `t` starts with `t` too, and conversely when long enough. */
  lemma StartsWithThroughPrefix(p: string, s: string, t: string)
    requires StartsWith(s, p)
    ensures StartsWith(p, t) ==> StartsWith(s, t)
    ensures |t| <= |p| && StartsWith(s, t) ==> StartsWith(p, t)
  {
  }

  /** No piece `split` returns contains the separator. */
  lemma {:induction false} SplitPiecesFree(s: string, sep: string)
    requires |sep| > 0
    ensures forall i :: 0 <= i < |Split(s, sep)| ==> !Contains(Split(s, sep)[i], sep)
    decreases |s|
  {
    var r := Split(s, sep);
    if |s| < |sep| {
      ShortNeverContains(s, sep);
    } else if s[..|sep|] == sep {
      SplitPiecesFree(s[|sep|..], sep);
      ShortNeverContains("", sep);
      assert forall i :: 1 <= i < |r| ==> r[i] == Split(s[|sep|..], sep)[i - 1];
    } else {
      var rest := Split(s[1..], sep);
      SplitPiecesFree(s[1..], sep);
      var p0 := [s[0]] + rest[0];
      assert r[0] == p0;
      assert p0[1..] == rest[0];
      JoinStartsWithHead(r, sep);
      StartsWithThroughPrefix(p0, s, sep);
      assert !StartsWith(p0, sep);
      assert !Contains(p0, sep);
      assert forall i :: 1 <= i < |r| ==> r[i] == rest[i];
    }
  }

  /** For a one-character pattern, substring search is membership. */
  lemma {:induction false} ContainsChar(s: string, c: char)
    ensures Contains(s, [c]) <==> c in s
    decreases |s|
  {
    if |s| > 0 {
      ContainsChar(s[1..], c);
      assert s == [s[0]] + s[1..];
    }
  }

  /** `t` occurs in any string built around it. */
  lemma {:induction false} ContainsInfix(a: string, t: string, b: string)
    ensures Contains(a + t + b, t)
    decreases |a|
  {
    if |a| == 0 {
      assert a + t + b == t + b;
      assert StartsWith(t + b, t);
    } else {
      assert (a + t + b)[1..] == a[1..] + t + b;
      ContainsInfix(a[1..], t, b);
    }
  }

  /**
   * Splitting a string that begins with the piece `p` and then `sep`, where
   * no occurrence of `sep` starts inside `p`, yields `p` then the split of
   * the remainder.
   */
  lemma {:induction false} SplitAfterPiece(p: string, sep: string, rest: string)
    requires |sep| > 0
    requires forall i :: 0 <= i < |p| ==> !StartsWith((p + sep + rest)[i..], sep)
    ensures Split(p + sep + rest, sep) == [p] + Split(rest, sep)
    decreases |p|
  {
    var s := p + sep + rest;
    if |p| == 0 {
      assert s == sep + rest;
      assert s[..|sep|] == sep;
      assert s[|sep|..] == rest;
    } else {
      assert s[0..] == s;
      assert s[..|sep|] != sep;
      var s' := p[1..] + sep + rest;
      assert s[1..] == s';
      forall i | 0 <= i < |p[1..]|
        ensures !StartsWith(s'[i..], sep)
      {
        assert s'[i..] == s[i + 1..];
      }
      SplitAfterPiece(p[1..], sep, rest);
      assert [s[0]] + p[1..] == p;
    }
  }

  /** A string with no `sep` in it splits into itself alone. */
  lemma SplitWithout(s: string, sep: string)
    requires |sep| > 0
    requires !Contains(s, sep)
    ensures Split(s, sep) == [s]
  {
  }

  /** Around a character `t` does not mention, `t` occurs on one side or the other. */
  lemma {:induction false} ContainsAcrossChar(a: string, c: char, b: string, t: string)
    requires |t| > 0 && c !in t
    ensures Contains(a + [c] + b, t) <==> Contains(a, t) || Contains(b, t)
    decreases |a|
  {
    var s := a + [c] + b;
    assert s[|a|] == c;
    assert StartsWith(s, t) ==> forall k :: 0 <= k < |t| ==> t[k] == s[k];
    assert StartsWith(s, t) ==> |t| <= |a|;
    if |a| == 0 {
      assert s[1..] == b;
      ShortNeverContains(a, t);
    } else {
      assert s[1..] == a[1..] + [c] + b;
      ContainsAcrossChar(a[1..], c, b, t);
      assert StartsWith(s, t) ==> StartsWith(a, t);
      assert StartsWith(a, t) ==> StartsWith(s, t);
    }
  }

  /** `any(t in x for x in xs)`. */
  predicate AnyContains(xs: seq<string>, t: string)
    decreases |xs|
  {
    |xs| > 0 && (Contains(xs[0], t) || AnyContains(xs[1..], t))
  }

  /** Some element of `a + b` contains `t` exactly when one of `a` or one of `b` does. */
  lemma {:induction false} AnyContainsAppend(a: seq<string>, b: seq<string>, t: string)
    ensures AnyContains(a + b, t) <==> AnyContains(a, t) || AnyContains(b, t)
    decreases |a|
  {
    if |a| == 0 {
      assert a + b == b;
    } else {
      assert (a + b)[0] == a[0];
      assert (a + b)[1..] == a[1..] + b;
      AnyContainsAppend(a[1..], b, t);
    }
  }

  /** With a one-character separator `t` does not mention, `t` occurs in a join exactly when it occurs in a piece. */
  lemma {:induction false} JoinContains(xs: seq<string>, c: char, t: string)
    requires |t| > 0 && c !in t
    ensures Contains(Join(xs, [c]), t) <==> AnyContains(xs, t)
    decreases |xs|
  {
    if |xs| == 0 {
      ShortNeverContains("", t);
    } else if |xs| == 1 {
      assert !AnyContains(xs[1..], t);
    } else {
      JoinContains(xs[1..], c, t);
      ContainsAcrossChar(xs[0], c, Join(xs[1..], [c]), t);
    }
  }

  /** With a one-character separator no piece contains, `split` undoes `join`. */
  lemma {:induction false} SplitJoinChar(xs: seq<string>, c: char)
    requires |xs| >= 1
    requires forall i :: 0 <= i < |xs| ==> c !in xs[i]
    ensures Split(Join(xs, [c]), [c]) == xs
    decreases |xs|
  {
    if |xs| == 1 {
      ContainsChar(xs[0], c);
    } else {
      var p := xs[0];
      var rest := Join(xs[1..], [c]);
      forall i | 0 <= i < |p|
        ensures !StartsWith((p + [c] + rest)[i..], [c])
      {
        assert (p + [c] + rest)[i] == p[i];
      }
      SplitAfterPiece(p, [c], rest);
      SplitJoinChar(xs[1..], c);
      assert [xs[0]] + xs[1..] == xs;
    }
  }

  /**
   * When `sep` occurs in `s`, the first piece is the text before its
   * leftmost occurrence: `s` starts with that piece and `sep`, and no
   * occurrence starts inside the piece.
   */
  lemma {:induction false} SplitFirstPiece(s: string, sep: string)
    requires |sep| > 0 && Contains(s, sep)
    ensures StartsWith(s, Split(s, sep)[0] + sep)
    ensures forall i :: 0 <= i < |Split(s, sep)[0]| ==> !StartsWith(s[i..], sep)
    decreases |s|
  {
    var r := Split(s, sep);
    if |s| < |sep| {
      ShortNeverContains(s, sep);
    } else if s[..|sep|] == sep {
      assert r[0] == "";
    } else {
      assert !StartsWith(s, sep);
      var rest := Split(s[1..], sep);
      SplitFirstPiece(s[1..], sep);
      assert r[0] == [s[0]] + rest[0];
      assert s == [s[0]] + s[1..];
      assert StartsWith(s, r[0] + sep);
      forall i | 0 <= i < |r[0]|
        ensures !StartsWith(s[i..], sep)
      {
        if i > 0 {
          assert s[i..] == s[1..][i - 1..];
        }
      }
    }
  }

  /** Text appended after a string keeps every occurrence in it. */
  lemma {:induction false} ContainsExtendRight(x: string, b: string, t: string)
    requires Contains(x, t)
    ensures Contains(x + b, t)
    decreases |x|
  {
    if StartsWith(x, t) {
      assert (x + b)[..|t|] == x[..|t|];
    } else {
      assert (x + b)[1..] == x[1..] + b;
      ContainsExtendRight(x[1..], b, t);
    }
  }

  /** Text around a string keeps every occurrence in it. */
  lemma {:induction false} ContainsWithin(a: string, x: string, b: string, t: string)
    requires Contains(x, t)
    ensures Contains(a + x + b, t)
    decreases |a|
  {
    if |a| == 0 {
      assert a + x + b == x + b;
      ContainsExtendRight(x, b, t);
    } else {
      assert (a + x + b)[1..] == a[1..] + x + b;
      ContainsWithin(a[1..], x, b, t);
    }
  }

  /** Whatever occurs in the stripped text occurs in the text. */
  lemma StripKeepsOut(s: string, t: string)
    requires Contains(Strip(s), t)
    ensures Contains(s, t)
  {
    StripAt(s);
    ContainsInSlice(s, Strip(s), |s| - |TrimStart(s)|, t);
  }

  /** Whatever occurs in a slice of `s` occurs in `s`. */
  lemma ContainsInSlice(s: string, r: string, i: nat, t: string)
    requires i + |r| <= |s| && r == s[i..i + |r|] && Contains(r, t)
    ensures Contains(s, t)
  {
    assert s == s[..i] + r + s[i + |r|..];
    ContainsWithin(s[..i], r, s[i + |r|..], t);
  }

  /** Two strings agreeing on their first `n` characters agree on occurrences lying within them. */
  lemma SharedPrefixStartsWith(a: string, b: string, n: nat, i: nat, t: string)
    requires n <= |a| && n <= |b| && a[..n] == b[..n]
    requires i + |t| <= n
    ensures StartsWith(a[i..], t) <==> StartsWith(b[i..], t)
  {
    assert a[i..][..|t|] == a[..n][i..i + |t|];
    assert b[i..][..|t|] == b[..n][i..i + |t|];
  }

  /**
   * Replacing what follows the first occurrence of `sep` keeps the first
   * piece: a string that starts like `s` up to and including that
   * occurrence splits into the same first piece and the split of its rest.
   */
  lemma SplitKeepsFirstPiece(s: string, sep: string, rest: string)
    requires |sep| > 0 && Contains(s, sep)
    ensures Split(Split(s, sep)[0] + sep + rest, sep) == [Split(s, sep)[0]] + Split(rest, sep)
  {
    var p := Split(s, sep)[0];
    var out := p + sep + rest;
    var n := |p| + |sep|;
    SplitFirstPiece(s, sep);
    assert out[..n] == p + sep == s[..n];
    forall i | 0 <= i < |p|
      ensures !StartsWith(out[i..], sep)
    {
      SharedPrefixStartsWith(out, s, n, i, sep);
    }
    SplitAfterPiece(p, sep, rest);
  }

  /** Whatever occurs in one piece occurs in the joined text. */
  lemma {:induction false} PieceInJoin(xs: seq<string>, i: nat, sep: string, t: string)
    requires i < |xs| && Contains(xs[i], t)
    ensures Contains(Join(xs, sep), t)
    decreases |xs|
  {
    if |xs| == 1 {
    } else if i == 0 {
      ContainsWithin("", xs[0], sep + Join(xs[1..], sep), t);
      assert "" + xs[0] + (sep + Join(xs[1..], sep)) == Join(xs, sep);
    } else {
      PieceInJoin(xs[1..], i - 1, sep, t);
      ContainsWithin(xs[0] + sep, Join(xs[1..], sep), "", t);
      assert xs[0] + sep + Join(xs[1..], sep) + "" == Join(xs, sep);
    }
  }

  /** Whatever occurs in one piece of a split occurs in the split text. */
  lemma PieceInWhole(s: string, sep: string, i: nat, t: string)
    requires |sep| > 0 && i < |Split(s, sep)| && Contains(Split(s, sep)[i], t)
    ensures Contains(s, t)
  {
    PieceInJoin(Split(s, sep), i, sep, t);
  }

  /** Every string contains itself. */
  lemma ContainsSelf(s: string)
    ensures Contains(s, s)
  {
    assert s[..|s|] == s;
  }

  /** No piece of a split holds text the whole does not hold. */
  lemma PiecesWithout(s: string, sep: string, t: string)
    requires |sep| > 0 && !Contains(s, t)
    ensures forall p :: p in Split(s, sep) ==> !Contains(p, t)
  {
    var xs := Split(s, sep);
    forall p | p in xs
      ensures !Contains(p, t)
    {
      var i :| 0 <= i < |xs| && xs[i] == p;
      if Contains(p, t) {
        PieceInWhole(s, sep, i, t);
      }
    }
  }

  // ---------------------------------------------------------------------
  // The text between the first and second occurrence of a single-line
  // separator, seen through the lines of the text.
  // ---------------------------------------------------------------------

  /** `xs` is `ys` with empty strings inserted anywhere. */
  predicate Padded(xs: seq<string>, ys: seq<string>)
    decreases |xs|
  {
    if |xs| == 0 then |ys| == 0
    else (|ys| > 0 && xs[0] == ys[0] && Padded(xs[1..], ys[1..])) || (xs[0] == "" && Padded(xs[1..], ys))
  }

  /** Joining a head and a tail with a separator. */
  lemma JoinCons(y: string, rest: seq<string>, sep: string)
    ensures Join([y] + rest, sep) == if |rest| == 0 then y else y + sep + Join(rest, sep)
  {
    assert ([y] + rest)[1..] == rest;
  }

  /** Where no separator starts at the front, the first character joins the first piece. */
  lemma SplitPastChar(s: string, sep: string)
    requires 0 < |sep| <= |s| && s[..|sep|] != sep
    ensures Split(s, sep) == [[s[0]] + Split(s[1..], sep)[0]] + Split(s[1..], sep)[1..]
  {
  }

  /** A prefix in which no occurrence of `sep` starts becomes the front of the first piece. */
  lemma {:induction false} SplitBehindPrefix(x: string, r: string, sep: string)
    requires |sep| > 0
    requires forall i :: 0 <= i < |x| ==> !StartsWith((x + r)[i..], sep)
    ensures Split(x + r, sep) == [x + Split(r, sep)[0]] + Split(r, sep)[1..]
    decreases |x|
  {
    var q := Split(r, sep);
    if |x| == 0 {
      assert x + r == r;
      assert x + q[0] == q[0];
      assert [q[0]] + q[1..] == q;
    } else if |x + r| < |sep| {
      assert q == [r];
    } else {
      var s := x + r;
      assert s[0..] == s;
      assert s[1..] == x[1..] + r;
      forall i | 0 <= i < |x[1..]|
        ensures !StartsWith((x[1..] + r)[i..], sep)
      {
        assert (x[1..] + r)[i..] == s[i + 1..];
      }
      SplitBehindPrefix(x[1..], r, sep);
      SplitBehindStep(x, r, sep);
    }
  }

  /** One step of `SplitBehindPrefix`: a first character that starts no separator joins the first piece. */
  lemma SplitBehindStep(x: string, r: string, sep: string)
    requires 0 < |sep| <= |x + r| && 0 < |x|
    requires !StartsWith(x + r, sep)
    requires Split(x[1..] + r, sep) == [x[1..] + Split(r, sep)[0]] + Split(r, sep)[1..]
    ensures Split(x + r, sep) == [x + Split(r, sep)[0]] + Split(r, sep)[1..]
  {
    var s := x + r;
    assert s[1..] == x[1..] + r;
    assert s[0] == x[0];
    SplitPastChar(s, sep);
    PieceGrows(x, Split(r, sep), Split(s[1..], sep), Split(s, sep));
  }

  /** Putting back the first character of `x` in front of the first piece extends that piece to all of `x`. */
  lemma PieceGrows(x: string, q: seq<string>, a: seq<string>, b: seq<string>)
    requires |x| > 0 && |q| > 0
    requires a == [x[1..] + q[0]] + q[1..]
    requires b == [[x[0]] + a[0]] + a[1..]
    ensures b == [x + q[0]] + q[1..]
  {
    assert [x[0]] + x[1..] == x;
    assert [x[0]] + (x[1..] + q[0]) == ([x[0]] + x[1..]) + q[0];
  }

  /** No occurrence of a single-line `sep` starts in a line without it or at the line break after it. */
  lemma NoStartBeforeBreak(y: string, r: string, sep: string)
    requires |sep| > 0 && '\n' !in sep && !Contains(y, sep)
    ensures forall i :: 0 <= i < |y + "\n"| ==> !StartsWith((y + "\n" + r)[i..], sep)
  {
    var s := y + "\n" + r;
    forall i | 0 <= i < |y + "\n"|
      ensures !StartsWith(s[i..], sep)
    {
      if i + |sep| <= |y| {
        assert s[i..][..|sep|] == y[i..i + |sep|];
        NotAt(y, sep, i);
      } else if |sep| <= |s[i..]| {
        assert s[i..][..|sep|][|y| - i] == '\n';
        assert sep[|y| - i] != '\n';
      }
    }
  }

  /** A string without `t` has no slice equal to `t`. */
  lemma NotAt(y: string, t: string, i: nat)
    requires !Contains(y, t) && i + |t| <= |y|
    ensures y[i..i + |t|] != t
  {
    if y[i..i + |t|] == t {
      ContainsSelf(t);
      ContainsInSlice(y, t, i, t);
    }
  }

  /** Behind a line without a single-line `sep`, the first piece takes the line and the line break. */
  lemma LineBeforeSplit(y: string, r: string, sep: string)
    requires |sep| > 0 && '\n' !in sep && !Contains(y, sep)
    ensures Split(y + "\n" + r, sep) == [y + "\n" + Split(r, sep)[0]] + Split(r, sep)[1..]
  {
    NoStartBeforeBreak(y, r, sep);
    SplitBehindPrefix(y + "\n", r, sep);
  }

  /**
   * A line holding `sep` ends the first piece inside it, and what follows
   * its first `sep` splits as a text of its own.
   */
  lemma MarkedHead(y: string, rest: seq<string>, sep: string)
    requires |sep| > 0 && Contains(y, sep)
    ensures var p := Split(y, sep)[0];
      && |p| + |sep| <= |y|
      && Split(Join([y] + rest, "\n"), sep) == [p] + Split(Join([y[|p| + |sep|..]] + rest, "\n"), sep)
  {
    var p := Split(y, sep)[0];
    SplitFirstPiece(y, sep);
    var b := y[|p| + |sep|..];
    assert y == p + sep + b;
    JoinCons(y, rest, "\n");
    JoinCons(b, rest, "\n");
    assert Join([y] + rest, "\n") == p + sep + Join([b] + rest, "\n");
    SplitKeepsFirstPiece(y, sep, Join([b] + rest, "\n"));
  }

  /** Behind a line without a single-line `sep`, the first piece holds `t` when the line or the rest's first piece does. */
  lemma FirstPieceAfterLine(y: string, rest: seq<string>, sep: string, t: string)
    requires |sep| > 0 && '\n' !in sep && !Contains(y, sep)
    requires |t| > 0 && '\n' !in t
    ensures Contains(Split(Join([y] + rest, "\n"), sep)[0], t)
      <==> Contains(y, t) || Contains(Split(Join(rest, "\n"), sep)[0], t)
  {
    JoinCons(y, rest, "\n");
    if |rest| == 0 {
      SplitWithout(y, sep);
      ShortNeverContains("", t);
    } else {
      LineBeforeSplit(y, Join(rest, "\n"), sep);
      ContainsAcrossChar(y, '\n', Split(Join(rest, "\n"), sep)[0], t);
    }
  }

  /** Empty lines inserted anywhere change no single-line text of the first piece. */
  lemma {:induction false} PaddedFirstPiece(xs: seq<string>, ys: seq<string>, sep: string, t: string)
    requires |sep| > 0 && '\n' !in sep && |t| > 0 && '\n' !in t
    requires Padded(xs, ys)
    ensures Contains(Split(Join(xs, "\n"), sep)[0], t) <==> Contains(Split(Join(ys, "\n"), sep)[0], t)
    decreases |xs|
  {
    if |xs| > 0 {
      assert xs == [xs[0]] + xs[1..];
      if |ys| > 0 && xs[0] == ys[0] && Padded(xs[1..], ys[1..]) {
        var y := ys[0];
        assert ys == [y] + ys[1..];
        if Contains(y, sep) {
          MarkedHead(y, xs[1..], sep);
          MarkedHead(y, ys[1..], sep);
        } else {
          PaddedFirstPiece(xs[1..], ys[1..], sep, t);
          FirstPieceAfterLine(y, xs[1..], sep, t);
          FirstPieceAfterLine(y, ys[1..], sep, t);
        }
      } else {
        PaddedFirstPiece(xs[1..], ys, sep, t);
        ShortNeverContains("", sep);
        ShortNeverContains("", t);
        FirstPieceAfterLine("", xs[1..], sep, t);
      }
    }
  }

  /** A line without `sep` in front of the others belongs to the first piece and leaves the second alone. */
  lemma SectionBehindLine(y: string, rest: seq<string>, sep: string)
    requires |sep| > 0 && '\n' !in sep && !Contains(y, sep)
    requires Contains(Join([y] + rest, "\n"), sep)
    ensures |rest| > 0 && Contains(Join(rest, "\n"), sep)
    ensures Split(Join([y] + rest, "\n"), sep)[1] == Split(Join(rest, "\n"), sep)[1]
  {
    JoinCons(y, rest, "\n");
    if |rest| > 0 {
      var r := Join(rest, "\n");
      LineBeforeSplit(y, r, sep);
      ContainsAcrossChar(y, '\n', r, sep);
    }
  }

  /** When a shared first line holds `sep`, the second piece starts inside that line. */
  lemma SectionAfterMarkedLine(y: string, xs: seq<string>, ys: seq<string>, sep: string, t: string)
    requires |sep| > 0 && '\n' !in sep && |t| > 0 && '\n' !in t
    requires Contains(y, sep) && Padded(xs, ys)
    requires Contains(Join([y] + xs, "\n"), sep) && Contains(Join([y] + ys, "\n"), sep)
    ensures Contains(Split(Join([y] + xs, "\n"), sep)[1], t) <==> Contains(Split(Join([y] + ys, "\n"), sep)[1], t)
  {
    MarkedHead(y, xs, sep);
    MarkedHead(y, ys, sep);
    var b := y[|Split(y, sep)[0]| + |sep|..];
    assert ([b] + xs)[1..] == xs;
    assert ([b] + ys)[1..] == ys;
    assert Padded([b] + xs, [b] + ys);
    PaddedFirstPiece([b] + xs, [b] + ys, sep, t);
  }

  /**
   * Empty lines inserted anywhere change no single-line text between the
   * first and second occurrence of a single-line `sep`.
   */
  lemma {:induction false} PaddedSection(xs: seq<string>, ys: seq<string>, sep: string, t: string)
    requires |sep| > 0 && '\n' !in sep && |t| > 0 && '\n' !in t
    requires Padded(xs, ys)
    requires Contains(Join(xs, "\n"), sep) && Contains(Join(ys, "\n"), sep)
    ensures Contains(Split(Join(xs, "\n"), sep)[1], t) <==> Contains(Split(Join(ys, "\n"), sep)[1], t)
    decreases |xs|
  {
    ShortNeverContains("", sep);
    assert |xs| > 0;
    assert xs == [xs[0]] + xs[1..];
    if |ys| > 0 && xs[0] == ys[0] && Padded(xs[1..], ys[1..]) {
      var y := ys[0];
      assert ys == [y] + ys[1..];
      if Contains(y, sep) {
        SectionAfterMarkedLine(y, xs[1..], ys[1..], sep, t);
      } else {
        SectionBehindLine(y, xs[1..], sep);
        SectionBehindLine(y, ys[1..], sep);
        PaddedSection(xs[1..], ys[1..], sep, t);
      }
    } else {
      SectionBehindLine("", xs[1..], sep);
      PaddedSection(xs[1..], ys, sep, t);
    }
  }
}

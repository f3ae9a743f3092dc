/** The slice of Kotlin's string library the launcher relies on, with Kotlin's
  * semantics written out: `indexOf`, `lastIndexOf`, `split` on characters,
  * `replace` of all non-overlapping occurrences, `trim`, `isBlank`,
  * `lowercase` (ASCII letters) and `toIntOrNull` (32-bit range). */
module KotlinText {
  import opened Wrappers

  type Str = seq<char>

  /** Bounds of Kotlin's 32-bit `Int`. */
  const IntMin: int := -0x8000_0000
  const IntMax: int := 0x7FFF_FFFF

  predicate InInt(n: int) { IntMin <= n <= IntMax }

  // ---------------------------------------------------------------------
  // Prefixes, suffixes and occurrences
  // ---------------------------------------------------------------------

  predicate StartsWith(s: Str, p: Str) { |p| <= |s| && s[..|p|] == p }

  predicate EndsWith(s: Str, p: Str) { |p| <= |s| && s[|s| - |p|..] == p }

  /** `w` occurs in `s` starting at index `i`. */
  ghost predicate OccursAt(s: Str, w: Str, i: int)
  {
    0 <= i && i + |w| <= |s| && s[i..i + |w|] == w
  }

  /** Kotlin's `s.indexOf(w, from)`: the first occurrence at or after `from`,
    * or -1. */
  function IndexOfFrom(s: Str, w: Str, from: nat): (r: int)
    requires from <= |s|
    ensures r == -1 || (from <= r && OccursAt(s, w, r))
    ensures r == -1 <==> forall i :: from <= i ==> !OccursAt(s, w, i)
    ensures r >= 0 ==> forall i :: from <= i < r ==> !OccursAt(s, w, i)
  {
    ScanFirst(s, w, from);
    Scan(s, w, from)
  }

  /** The search behind `IndexOfFrom`, one position at a time. */
  function Scan(s: Str, w: Str, from: nat): (r: int)
    requires from <= |s|
    ensures r == -1 || (from <= r && OccursAt(s, w, r))
    decreases |s| - from
  {
    if from + |w| > |s| then -1
    else if s[from..from + |w|] == w then from
    else Scan(s, w, from + 1)
  }

  /** The search finds the first occurrence, and fails only when there is
    * none. */
  lemma {:induction false} ScanFirst(s: Str, w: Str, from: nat)
    requires from <= |s|
    ensures var r := Scan(s, w, from);
      (r == -1 <==> forall i :: from <= i ==> !OccursAt(s, w, i))
      && (r >= 0 ==> forall i :: from <= i < r ==> !OccursAt(s, w, i))
    decreases |s| - from
  {
    if from + |w| <= |s| && s[from..from + |w|] != w {
      ScanFirst(s, w, from + 1);
    }
  }

  function IndexOf(s: Str, w: Str): int { IndexOfFrom(s, w, 0) }

  /** Kotlin's `s.contains(w)`. */
  predicate Contains(s: Str, w: Str) { IndexOf(s, w) >= 0 }

  lemma ContainsIff(s: Str, w: Str)
    ensures Contains(s, w) <==> exists i :: OccursAt(s, w, i)
  {
    if !Contains(s, w) {
      forall i ensures !OccursAt(s, w, i) {
        if i >= 0 { assert 0 <= i; }
      }
    }
  }

  lemma PrefixContained(s: Str, w: Str)
    requires StartsWith(s, w)
    ensures Contains(s, w)
  {
    assert OccursAt(s, w, 0);
  }

  /** Kotlin's `s.indexOf(c)` for a character. */
  function IndexOfChar(s: Str, c: char): (r: int)
    ensures -1 <= r < |s|
    ensures r >= 0 ==> s[r] == c && c !in s[..r]
    ensures r == -1 <==> c !in s
  {
    if |s| == 0 then -1
    else if s[0] == c then 0
    else
      var k := IndexOfChar(s[1..], c);
      assert s == [s[0]] + s[1..];
      if k < 0 then -1 else k + 1
  }

  /** Kotlin's `s.indexOf(c, from)` for a character. */
  function IndexOfCharFrom(s: Str, c: char, from: nat): (r: int)
    requires from <= |s|
    ensures r >= -1
    ensures r == -1 <==> c !in s[from..]
    ensures r >= 0 ==> from <= r < |s| && s[r] == c && c !in s[from..r]
    decreases |s| - from
  {
    if from == |s| then -1
    else if s[from] == c then
      assert s[from..from] == [];
      from
    else
      assert s[from..] == [s[from]] + s[from + 1..];
      var k := IndexOfCharFrom(s, c, from + 1);
      assert k >= 0 ==> s[from..k] == [s[from]] + s[from + 1..k];
      k
  }

  /** Kotlin's `s.lastIndexOf(c)` for a character. */
  function LastIndexOfChar(s: Str, c: char): (r: int)
    ensures -1 <= r < |s|
    ensures r >= 0 ==> s[r] == c && c !in s[r + 1..]
    ensures r == -1 <==> c !in s
  {
    if |s| == 0 then -1
    else if s[|s| - 1] == c then |s| - 1
    else
      assert s == s[..|s| - 1] + [s[|s| - 1]];
      LastIndexOfChar(s[..|s| - 1], c)
  }

  /** Kotlin's `substringBefore(c)`: the text before the first `c`, or all of
    * `s` when it has none. */
  function SubstringBefore(s: Str, c: char): (r: Str)
    ensures c !in r
    ensures StartsWith(s, r)
    ensures c in s ==> |r| < |s| && s[|r|] == c
  {
    var i := IndexOfChar(s, c);
    if i < 0 then s else s[..i]
  }

  /** Kotlin's `substringAfterLast(c)`: the text after the last `c`, or all of
    * `s` when it has none. */
  function SubstringAfterLast(s: Str, c: char): (r: Str)
    ensures c !in r
    ensures EndsWith(s, r)
    ensures c in s ==> |r| < |s| && s[|s| - |r| - 1] == c
  {
    var i := LastIndexOfChar(s, c);
    if i < 0 then s else s[i + 1..]
  }

  function RemovePrefix(s: Str, p: Str): (r: Str)
    ensures StartsWith(s, p) ==> p + r == s
    ensures !StartsWith(s, p) ==> r == s
  {
    if StartsWith(s, p) then s[|p|..] else s
  }

  function RemoveSuffix(s: Str, p: Str): (r: Str)
    ensures EndsWith(s, p) ==> r + p == s
    ensures !EndsWith(s, p) ==> r == s
  {
    if EndsWith(s, p) then s[..|s| - |p|] else s
  }

  /** Kotlin's `removeSurrounding(p, q)`: both ends stripped only when the
    * text is long enough and has both. */
  function RemoveSurrounding(s: Str, p: Str, q: Str): (r: Str)
    ensures |p| + |q| <= |s| && StartsWith(s, p) && EndsWith(s, q) ==> p + r + q == s
    ensures !(|p| + |q| <= |s| && StartsWith(s, p) && EndsWith(s, q)) ==> r == s
  {
    if |p| + |q| <= |s| && StartsWith(s, p) && EndsWith(s, q) then s[|p|..|s| - |q|] else s
  }

  lemma ConcatAssoc<T>(a: seq<T>, b: seq<T>, c: seq<T>)
    ensures a + (b + c) == a + b + c
  {
  }

  /** Kotlin's `replace(a, b)` on characters: every `a` becomes `b`. */
  function ReplaceChar(s: Str, a: char, b: char): (r: Str)
    ensures |r| == |s|
    ensures forall i :: 0 <= i < |s| ==> r[i] == (if s[i] == a then b else s[i])
  {
    seq(|s|, i requires 0 <= i < |s| => if s[i] == a then b else s[i])
  }

  // ---------------------------------------------------------------------
  // Splitting and joining
  // ---------------------------------------------------------------------

  /** Kotlin's `split(d1, d2, …)` on single characters: every delimiter ends
    * a part, so there is always one more part than delimiters. */
  function SplitOn(s: Str, ds: set<char>): (parts: seq<Str>)
    ensures |parts| >= 1
    ensures forall i, c :: 0 <= i < |parts| && c in parts[i] ==> c !in ds
    decreases |s|
  {
    if |s| == 0 then [""]
    else
      var rest := SplitOn(s[1..], ds);
      if s[0] in ds then [""] + rest
      else [[s[0]] + rest[0]] + rest[1..]
  }

  function Split(s: Str, d: char): seq<Str> { SplitOn(s, {d}) }

  /** Kotlin's `joinToString(sep)`. */
  function JoinWith(parts: seq<Str>, sep: Str): Str
  {
    if |parts| == 0 then ""
    else if |parts| == 1 then parts[0]
    else parts[0] + sep + JoinWith(parts[1..], sep)
  }

  /** Joining the parts of a split with the delimiter gives the text back. */
  lemma {:induction false} SplitJoin(s: Str, d: char)
    ensures JoinWith(Split(s, d), [d]) == s
    decreases |s|
  {
    if |s| > 0 {
      var rest := Split(s[1..], d);
      SplitJoin(s[1..], d);
      if s[0] == d {
        assert Split(s, d) == [""] + rest;
        assert s == [d] + s[1..];
      } else {
        var parts := Split(s, d);
        assert parts == [[s[0]] + rest[0]] + rest[1..];
        if |rest| == 1 {
          assert s == [s[0]] + s[1..];
        } else {
          assert rest == [rest[0]] + rest[1..];
          assert JoinWith(rest, [d]) == rest[0] + [d] + JoinWith(rest[1..], [d]);
          assert parts[1..] == rest[1..];
          assert s == [s[0]] + s[1..];
        }
      }
    }
  }

  /** A delimiter between two texts separates their parts. */
  lemma SplitAppend(x: Str, y: Str, d: char)
    ensures Split(x + [d] + y, d) == Split(x, d) + Split(y, d)
  {
    SplitOnAppend(x, y, d, {d});
  }

  /** One step of the split: a delimiter starts a new part, any other
    * character joins the first part. */
  lemma SplitOnCons(c: char, t: Str, ds: set<char>)
    ensures c in ds ==> SplitOn([c] + t, ds) == [""] + SplitOn(t, ds)
    ensures c !in ds ==> SplitOn([c] + t, ds) == [[c] + SplitOn(t, ds)[0]] + SplitOn(t, ds)[1..]
  {
    assert ([c] + t)[1..] == t;
  }

  /** A delimiter of the set between two texts separates their parts. */
  lemma {:induction false} SplitOnAppend(x: Str, y: Str, d: char, ds: set<char>)
    requires d in ds
    ensures SplitOn(x + [d] + y, ds) == SplitOn(x, ds) + SplitOn(y, ds)
    decreases |x|
  {
    if |x| == 0 {
      SplitOnCons(d, y, ds);
      assert x + [d] + y == [d] + y;
    } else {
      SplitOnAppend(x[1..], y, d, ds);
      SplitOnAppendStep(x[0], x[1..], y, d, ds);
      assert x == [x[0]] + x[1..];
      assert x + [d] + y == [x[0]] + (x[1..] + [d] + y);
    }
  }

  /** The inductive step of `SplitOnAppend`: one more character in front. */
  lemma SplitOnAppendStep(c: char, u: Str, y: Str, d: char, ds: set<char>)
    requires SplitOn(u + [d] + y, ds) == SplitOn(u, ds) + SplitOn(y, ds)
    ensures SplitOn([c] + (u + [d] + y), ds) == SplitOn([c] + u, ds) + SplitOn(y, ds)
  {
    var a, b := SplitOn(u, ds), SplitOn(y, ds);
    SplitOnCons(c, u + [d] + y, ds);
    SplitOnCons(c, u, ds);
    if c in ds {
      ConcatAssoc([""], a, b);
    } else {
      JoinFirstPart(c, a, b);
    }
  }

  /** Extending the first part of `a + b` extends the first part of `a`. */
  lemma JoinFirstPart(c: char, a: seq<Str>, b: seq<Str>)
    requires |a| > 0
    ensures [[c] + (a + b)[0]] + (a + b)[1..] == ([[c] + a[0]] + a[1..]) + b
  {
    assert (a + b)[0] == a[0];
    assert (a + b)[1..] == a[1..] + b;
  }

  /** Text without any delimiter of the set is one part. */
  lemma {:induction false} SplitOnWhole(x: Str, ds: set<char>)
    requires forall c :: c in x ==> c !in ds
    ensures SplitOn(x, ds) == [x]
    decreases |x|
  {
    if |x| > 0 {
      SplitOnWhole(x[1..], ds);
      assert x == [x[0]] + x[1..];
    }
  }

  /** Splitting a join of delimiter-free parts recovers the parts. */
  lemma {:induction false} JoinSplit(parts: seq<Str>, d: char)
    requires |parts| >= 1
    requires forall i :: 0 <= i < |parts| ==> d !in parts[i]
    ensures Split(JoinWith(parts, [d]), d) == parts
    decreases |parts|, |parts[0]|
  {
    if |parts[0]| > 0 {
      var tail := [parts[0][1..]] + parts[1..];
      assert d !in tail[0] by { assert forall c :: c in parts[0][1..] ==> c in parts[0]; }
      JoinSplit(tail, d);
      if |parts| == 1 {
        assert JoinWith(parts, [d]) == [parts[0][0]] + JoinWith(tail, [d]);
      } else {
        assert tail[1..] == parts[1..];
        assert JoinWith(parts, [d]) == [parts[0][0]] + JoinWith(tail, [d]);
      }
      assert parts[0][0] != d;
      assert parts[0] == [parts[0][0]] + tail[0];
    } else if |parts| > 1 {
      JoinSplit(parts[1..], d);
      assert JoinWith(parts, [d]) == [d] + JoinWith(parts[1..], [d]);
    }
  }

  /** Text without the delimiter is a single part. */
  lemma SplitWhole(a: Str, d: char)
    requires d !in a
    ensures Split(a, d) == [a]
  {
    JoinSplit([a], d);
  }

  /** Three delimiter-free texts joined by the delimiter split back into
    * those texts. */
  lemma SplitThree(a: Str, b: Str, c: Str, d: char)
    requires d !in a && d !in b && d !in c
    ensures Split(a + [d] + b + [d] + c, d) == [a, b, c]
  {
    assert a + [d] + b + [d] + c == a + [d] + (b + [d] + c);
    SplitAppend(a, b + [d] + c, d);
    SplitAppend(b, c, d);
    SplitWhole(a, d);
    SplitWhole(b, d);
    SplitWhole(c, d);
  }

  /** The first part of a split is the text up to the first delimiter. */
  lemma SplitFirstPart(a: Str, rest: Str, d: char)
    requires d !in a
    requires rest == [] || rest[0] == d
    ensures Split(a + rest, d)[0] == a
  {
    SplitWhole(a, d);
    if rest == [] {
      assert a + rest == a;
    } else {
      assert a + rest == a + [d] + rest[1..];
      SplitAppend(a, rest[1..], d);
    }
  }

  // ---------------------------------------------------------------------
  // Replacement
  // ---------------------------------------------------------------------

  /** Kotlin's `replace(pat, rep)`: every non-overlapping occurrence of a
    * non-empty pattern `pat`, scanning left to right, becomes `rep`. */
  function ReplaceAll(s: Str, pat: Str, rep: Str): (r: Str)
    requires |pat| > 0
    decreases |s|
  {
    if |s| < |pat| then s
    else if s[..|pat|] == pat then rep + ReplaceAll(s[|pat|..], pat, rep)
    else [s[0]] + ReplaceAll(s[1..], pat, rep)
  }

  /** A pattern with a character the text lacks does not occur in it. */
  lemma MissingCharAbsent(s: Str, pat: Str, c: char)
    requires c in pat && c !in s
    ensures !Contains(s, pat)
  {
    ContainsIff(s, pat);
    var k :| 0 <= k < |pat| && pat[k] == c;
    forall i | 0 <= i && i + |pat| <= |s| ensures !OccursAt(s, pat, i) {
      assert s[i..i + |pat|][k] == s[i + k] && s[i + k] in s;
    }
  }

  /** Where the pattern does not start, one character passes through. */
  lemma ReplaceStep(s: Str, pat: Str, rep: Str)
    requires |pat| > 0 && |s| > 0 && !StartsWith(s, pat)
    ensures ReplaceAll(s, pat, rep) == [s[0]] + ReplaceAll(s[1..], pat, rep)
  {
    if |s| < |pat| {
      assert |s[1..]| < |pat|;
      assert ReplaceAll(s[1..], pat, rep) == s[1..];
      assert ReplaceAll(s, pat, rep) == s;
      assert s == [s[0]] + s[1..];
    } else {
      assert s[..|pat|] != pat;
    }
  }

  lemma ReplaceAtMatch(r: Str, pat: Str, rep: Str)
    requires |pat| > 0
    ensures ReplaceAll(pat + r, pat, rep) == rep + ReplaceAll(r, pat, rep)
  {
    assert (pat + r)[..|pat|] == pat;
    assert (pat + r)[|pat|..] == r;
  }

  /** Text without the pattern's first character cannot start a match, so
    * it passes through unchanged. */
  lemma {:induction false} ReplacePassThrough(t: Str, r: Str, pat: Str, rep: Str)
    requires |pat| > 0 && pat[0] !in t
    ensures ReplaceAll(t + r, pat, rep) == t + ReplaceAll(r, pat, rep)
    decreases |t|
  {
    if |t| > 0 {
      assert (t + r)[0] == t[0] && t[0] in t;
      assert !StartsWith(t + r, pat) by {
        if |pat| <= |t + r| { assert (t + r)[..|pat|][0] != pat[0]; }
      }
      ReplaceStep(t + r, pat, rep);
      assert (t + r)[1..] == t[1..] + r;
      assert pat[0] !in t[1..] by { assert forall c :: c in t[1..] ==> c in t; }
      ReplacePassThrough(t[1..], r, pat, rep);
      calc {
        ReplaceAll(t + r, pat, rep);
        [t[0]] + ReplaceAll(t[1..] + r, pat, rep);
        [t[0]] + (t[1..] + ReplaceAll(r, pat, rep));
        { assert t == [t[0]] + t[1..]; }
        t + ReplaceAll(r, pat, rep);
      }
    } else {
      assert t + r == r;
    }
  }

  /** Text without an occurrence of `pat` is returned unchanged. */
  lemma {:induction false} ReplaceAbsent(s: Str, pat: Str, rep: Str)
    requires |pat| > 0
    requires !Contains(s, pat)
    ensures ReplaceAll(s, pat, rep) == s
    decreases |s|
  {
    if |s| >= |pat| {
      assert !OccursAt(s, pat, 0);
      assert !Contains(s[1..], pat) by {
        forall i | OccursAt(s[1..], pat, i) ensures OccursAt(s, pat, i + 1) {
          assert s[1..][i..i + |pat|] == s[i + 1..i + 1 + |pat|];
        }
      }
      ReplaceAbsent(s[1..], pat, rep);
      assert s == [s[0]] + s[1..];
    }
  }

  /** An occurrence after the first character is one in the rest. */
  lemma OccursShift(s: Str, w: Str, k: int)
    requires OccursAt(s, w, k) && k >= 1
    ensures OccursAt(s[1..], w, k - 1)
  {
    forall j | 0 <= j < |w| ensures s[1..][k - 1..k - 1 + |w|][j] == w[j] {
      assert w[j] == s[k + j];
    }
  }

  /** Replacing by something no longer never lengthens the text, and it
    * shortens it when `pat` occurs and `rep` is strictly shorter. */
  lemma {:induction false} ReplaceLength(s: Str, pat: Str, rep: Str)
    requires |pat| > 0 && |rep| <= |pat|
    ensures |ReplaceAll(s, pat, rep)| <= |s|
    ensures |rep| < |pat| && Contains(s, pat) ==> |ReplaceAll(s, pat, rep)| < |s|
    decreases |s|
  {
    if |s| >= |pat| {
      if s[..|pat|] == pat {
        ReplaceLength(s[|pat|..], pat, rep);
      } else {
        ReplaceLength(s[1..], pat, rep);
        if |rep| < |pat| && Contains(s, pat) {
          var k := IndexOf(s, pat);
          OccursShift(s, pat, k);
          ContainsIff(s[1..], pat);
        }
      }
    }
  }

  /** Removing a character leaves no occurrence of it. */
  lemma {:induction false} ReplaceCharRemoves(s: Str, c: char)
    ensures c !in ReplaceAll(s, [c], "")
    ensures forall x :: x in ReplaceAll(s, [c], "") ==> x in s
    decreases |s|
  {
    if |s| >= 1 {
      ReplaceCharRemoves(s[1..], c);
      assert s[..1] == [s[0]];
    }
  }

  /** Deleting a pattern only ever drops characters, and deleting one that
    * occurs drops at least the pattern's length. */
  lemma {:induction false} DeleteShrinks(s: Str, pat: Str)
    requires |pat| > 0
    ensures forall x :: x in ReplaceAll(s, pat, "") ==> x in s
    ensures Contains(s, pat) ==> |ReplaceAll(s, pat, "")| + |pat| <= |s|
    decreases |s|
  {
    if |s| >= |pat| {
      if s[..|pat|] == pat {
        DeleteShrinks(s[|pat|..], pat);
        ReplaceLength(s[|pat|..], pat, "");
        assert forall x :: x in s[|pat|..] ==> x in s;
      } else {
        DeleteShrinks(s[1..], pat);
        if Contains(s, pat) {
          var k := IndexOf(s, pat);
          OccursShift(s, pat, k);
          ContainsIff(s[1..], pat);
        }
      }
    }
  }

  // ---------------------------------------------------------------------
  // Whitespace and case
  // ---------------------------------------------------------------------

  /** Kotlin's `Char.isWhitespace()`: Java whitespace plus the Unicode space
    * separators, listed by code point. */
  predicate IsWhitespace(c: char)
  {
    var n := c as int;
    n == 0x20 || (0x09 <= n <= 0x0D) || (0x1C <= n <= 0x1F) || n == 0xA0
    || n == 0x1680 || (0x2000 <= n <= 0x200A) || n == 0x2028 || n == 0x2029
    || n == 0x202F || n == 0x205F || n == 0x3000
  }

  /** Kotlin's `isBlank()`: empty or all whitespace. */
  predicate IsBlank(s: Str) { forall i :: 0 <= i < |s| ==> IsWhitespace(s[i]) }

  function LeadingSpace(s: Str): (n: nat)
    ensures n <= |s|
    ensures forall i :: 0 <= i < n ==> IsWhitespace(s[i])
    ensures n < |s| ==> !IsWhitespace(s[n])
  {
    if |s| == 0 || !IsWhitespace(s[0]) then 0 else 1 + LeadingSpace(s[1..])
  }

  function TrailingSpace(s: Str): (n: nat)
    ensures n <= |s|
    ensures forall i :: |s| - n <= i < |s| ==> IsWhitespace(s[i])
    ensures n < |s| ==> !IsWhitespace(s[|s| - n - 1])
  {
    if |s| == 0 || !IsWhitespace(s[|s| - 1]) then 0 else 1 + TrailingSpace(s[..|s| - 1])
  }

  /** Kotlin's `trim()`: the slice between the leading and trailing whitespace. */
  function Trim(s: Str): (r: Str)
    ensures |r| <= |s|
    ensures |r| > 0 ==> !IsWhitespace(r[0]) && !IsWhitespace(r[|r| - 1])
    ensures |r| == 0 <==> IsBlank(s)
    ensures forall c :: c in r ==> c in s
  {
    var a := LeadingSpace(s);
    if a == |s| then ""
    else s[a..|s| - TrailingSpace(s[a..])]
  }

  /** Non-empty text without surrounding whitespace. */
  predicate Trimmed(x: Str)
  {
    |x| > 0 && !IsWhitespace(x[0]) && !IsWhitespace(x[|x| - 1])
  }

  /** Trimming text without surrounding whitespace, or with one space in
    * front, gives the text itself. */
  lemma TrimTrimmed(x: Str)
    requires Trimmed(x)
    ensures Trim(x) == x
    ensures Trim(" " + x) == x
  {
    assert TrailingSpace(x) == 0;
    var y := " " + x;
    assert y[1..] == x;
    assert LeadingSpace(x) == 0;
    assert LeadingSpace(y) == 1;
    assert y[1..] == x;
  }

  function LowerChar(c: char): char
  {
    if 'A' <= c <= 'Z' then (c as int + 32) as char else c
  }

  /** `lowercase()` on ASCII letters; other characters are kept. */
  function Lowercase(s: Str): (r: Str)
    ensures |r| == |s|
    ensures forall i :: 0 <= i < |s| ==> r[i] == LowerChar(s[i])
  {
    seq(|s|, i requires 0 <= i < |s| => LowerChar(s[i]))
  }

  predicate EqualsIgnoreCase(a: Str, b: Str) { Lowercase(a) == Lowercase(b) }

  // ---------------------------------------------------------------------
  // Integer division as the JVM does it
  // ---------------------------------------------------------------------

  /** Kotlin's `a / b` for a positive divisor: truncates toward zero. */
  function KDiv(a: int, b: int): (q: int)
    requires b > 0
    ensures a >= 0 ==> q == a / b
    ensures a < 0 ==> q == -((-a) / b)
  {
    if a >= 0 then a / b else -((-a) / b)
  }

  /** Kotlin's `a % b` for a positive divisor: takes the sign of `a`. */
  function KRem(a: int, b: int): (r: int)
    requires b > 0
    ensures a == KDiv(a, b) * b + r
    ensures a >= 0 ==> 0 <= r < b
    ensures a < 0 ==> -b < r <= 0
  {
    a - KDiv(a, b) * b
  }

  /** The number of distinct `Int` values. */
  const IntSpan: int := 0x1_0000_0000

  /** A JVM `Int` operation's result: the exact value reduced into the
    * 32-bit range, as two's-complement wrap-around does. */
  function WrapInt(x: int): (r: int)
    ensures InInt(r)
    ensures (x - r) % IntSpan == 0
    ensures InInt(x) ==> r == x
  {
    (x - IntMin) % IntSpan + IntMin
  }

  /** Values that differ by whole multiples of 2^32 wrap to the same `Int`. */
  lemma WrapCongruent(x: int, y: int)
    requires (x - y) % IntSpan == 0
    ensures WrapInt(x) == WrapInt(y)
  {
    var k := (x - y) / IntSpan;
    assert x - IntMin == (y - IntMin) + k * IntSpan;
    ModShift(y - IntMin, k);
  }

  lemma ModShift(a: int, k: int)
    ensures (a + k * IntSpan) % IntSpan == a % IntSpan
  {
    var q := a / IntSpan;
    var m := a % IntSpan;
    assert a + k * IntSpan == (q + k) * IntSpan + m;
  }

  // ---------------------------------------------------------------------
  // Decimal integers
  // ---------------------------------------------------------------------

  predicate IsDigit(c: char) { '0' <= c <= '9' }

  predicate AllDigits(s: Str) { forall i :: 0 <= i < |s| ==> IsDigit(s[i]) }

  function DigitChar(d: nat): (c: char)
    requires d < 10
    ensures IsDigit(c)
  {
    ('0' as int + d) as char
  }

  function DigitsValue(s: Str): nat
    requires AllDigits(s)
    decreases |s|
  {
    if |s| == 0 then 0
    else DigitsValue(s[..|s| - 1]) * 10 + (s[|s| - 1] as int - '0' as int)
  }

  /** The shortest decimal spelling of a natural number. */
  function NatToDigits(n: nat): Str
    decreases n
  {
    if n < 10 then [DigitChar(n)] else NatToDigits(n / 10) + [DigitChar(n % 10)]
  }

  /** Kotlin's `Int.toString()`. */
  function IntToString(n: int): Str
  {
    if n < 0 then "-" + NatToDigits(-n) else NatToDigits(n)
  }

  /** Kotlin's `toIntOrNull()`: an optional sign followed by at least one
    * digit, within the 32-bit range. */
  function ToIntOrNull(s: Str): (r: Option<int>)
    ensures r.Some? ==> InInt(r.value) && |s| > 0
    ensures r.Some? && s[0] != '-' ==> r.value >= 0
  {
    if |s| == 0 then None
    else if s[0] == '-' || s[0] == '+' then
      if |s| == 1 || !AllDigits(s[1..]) then None
      else
        var d: int := DigitsValue(s[1..]);
        var v := if s[0] == '-' then 0 - d else d;
        if InInt(v) then Some(v) else None
    else if AllDigits(s) && InInt(DigitsValue(s)) then Some(DigitsValue(s))
    else None
  }

  lemma {:induction false} DigitsRoundTrip(n: nat)
    ensures |NatToDigits(n)| > 0 && AllDigits(NatToDigits(n))
    ensures DigitsValue(NatToDigits(n)) == n
    decreases n
  {
    if n >= 10 {
      DigitsRoundTrip(n / 10);
      var s := NatToDigits(n);
      assert s[..|s| - 1] == NatToDigits(n / 10);
    }
  }

  /** Printing an `Int` and reading it back gives the same number. */
  lemma IntStringRoundTrip(n: int)
    requires InInt(n)
    ensures ToIntOrNull(IntToString(n)) == Some(n)
  {
    var s := IntToString(n);
    if n < 0 {
      var ds := NatToDigits(-n);
      DigitsRoundTrip(-n);
      assert s == "-" + ds;
      assert s[1..] == ds;
      assert s[0] == '-' && |s| > 1;
    } else {
      DigitsRoundTrip(n);
      assert s[0] != '-' && s[0] != '+' by { assert IsDigit(s[0]); }
    }
  }

  lemma NatDigitsHaveNoSign(n: nat)
    ensures forall c :: c in NatToDigits(n) ==> IsDigit(c)
  {
    DigitsRoundTrip(n);
  }

  // ---------------------------------------------------------------------
  // String length as the JVM counts it
  // ---------------------------------------------------------------------

  /** A character outside the Basic Multilingual Plane is stored as a
    * surrogate pair. */
  predicate InBmp(c: char) { c as int <= 0xFFFF }

  /** Kotlin's `String.length`: UTF-16 code units, two for a character
    * outside the Basic Multilingual Plane and one for any other. */
  function Utf16Length(s: Str): (r: nat)
    ensures |s| <= r <= 2 * |s|
    ensures r == |s| <==> forall i :: 0 <= i < |s| ==> InBmp(s[i])
    ensures r == 2 * |s| <==> forall i :: 0 <= i < |s| ==> !InBmp(s[i])
    decreases |s|
  {
    if |s| == 0 then 0
    else
      var rest := Utf16Length(s[1..]);
      assert forall i :: 1 <= i < |s| ==> s[i] == s[1..][i - 1];
      (if InBmp(s[0]) then 1 else 2) + rest
  }

  /** One character as UTF-16 code units: itself inside the Basic
    * Multilingual Plane, otherwise a high surrogate followed by a low one
    * that together give the character back. */
  function Utf16Of(c: char): (r: seq<int>)
    ensures |r| == if InBmp(c) then 1 else 2
    ensures InBmp(c) ==> r[0] == c as int
    ensures !InBmp(c) ==>
      0xD800 <= r[0] <= 0xDBFF && 0xDC00 <= r[1] <= 0xDFFF
      && 0x10000 + (r[0] - 0xD800) * 0x400 + (r[1] - 0xDC00) == c as int
  {
    if InBmp(c) then [c as int]
    else
      var v := c as int - 0x10000;
      [0xD800 + v / 0x400, 0xDC00 + v % 0x400]
  }

  /** The UTF-16 code units of a string, the sequence Java's string
    * operations index. */
  function Utf16Units(s: Str): (r: seq<int>)
    ensures |r| == Utf16Length(s)
    ensures forall k :: 0 <= k < |r| ==> 0 <= r[k] <= 0xFFFF
    decreases |s|
  {
    if |s| == 0 then [] else Utf16Of(s[0]) + Utf16Units(s[1..])
  }

  /** The length of a concatenation is the sum of the lengths. */
  lemma {:induction false} Utf16Append(s: Str, t: Str)
    ensures Utf16Length(s + t) == Utf16Length(s) + Utf16Length(t)
    decreases |s|
  {
    if |s| > 0 {
      assert (s + t)[0] == s[0] && (s + t)[1..] == s[1..] + t;
      Utf16Append(s[1..], t);
    } else {
      assert s + t == t;
    }
  }
}

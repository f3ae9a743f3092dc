/** The launcher's string helpers: rotation of a string, dotted class-version
  * comparison, marker extraction from `release` files, `${key}` placeholder
  * substitution, and a quote-aware splitter. */
module StringUtils {
  import opened Wrappers
  import opened KotlinText

  // ---------------------------------------------------------------------
  // shiftString
  // ---------------------------------------------------------------------

  datatype ShiftDirection = Left | Right

  /** `substring` with an index outside the string throws. */
  datatype StringError = IndexOutOfBounds

  function Rotate(s: Str, j: nat): Str
    requires j <= |s|
  {
    s[j..] + s[..j]
  }

  ghost predicate IsRotation(a: Str, b: Str)
  {
    exists j :: 0 <= j <= |a| && b == Rotate(a, j)
  }

  /** Rotates `input` by `shiftCount` reduced with the JVM's `%` (which keeps
    * the sign of `shiftCount`); a negative remainder reaches `substring`
    * with a bad index and throws. */
  function ShiftString(input: Str, direction: ShiftDirection, shiftCount: int): (r: Result<Str, StringError>)
    ensures |input| == 0 ==> r == Ok(input)
    ensures |input| > 0 && KRem(shiftCount, |input|) == 0 ==> r == Ok(input)
    ensures r.Err? <==> |input| > 0 && KRem(shiftCount, |input|) < 0
    ensures r.Ok? ==> |r.value| == |input| && IsRotation(input, r.value)
    ensures |input| > 0 && r.Ok? ==>
      var k := KRem(shiftCount, |input|);
      0 <= k < |input|
      && r.value == Rotate(input, if direction == Left then k else |input| - k)
  {
    if |input| == 0 then
      assert input == Rotate(input, 0);
      Ok(input)
    else
      var length := |input|;
      var k := KRem(shiftCount, length);
      if k == 0 then
        assert input == Rotate(input, 0) == Rotate(input, length);
        Ok(input)
      else
        match direction
        case Left =>
          if k < 0 then Err(IndexOutOfBounds)
          else
            var r := Rotate(input, k);
            assert IsRotation(input, r) by { assert 0 <= k <= |input| && r == Rotate(input, k); }
            Ok(r)
        case Right =>
          if length - k > length then Err(IndexOutOfBounds)
          else
            var r := Rotate(input, length - k);
            assert IsRotation(input, r) by { assert 0 <= length - k <= |input| && r == Rotate(input, length - k); }
            Ok(r)
  }

  /** Shifting left and then right by the same non-negative count restores
    * the input. */
  lemma ShiftLeftRight(input: Str, k: nat)
    ensures ShiftString(input, Left, k).Ok?
    ensures ShiftString(ShiftString(input, Left, k).value, Right, k) == Ok(input)
  {
    if |input| > 0 {
      var len := |input|;
      var m := KRem(k, len);
      if m != 0 {
        var t := Rotate(input, m);
        assert ShiftString(input, Left, k) == Ok(t);
        assert |t| == len;
        assert t[len - m..] == input[..m];
        assert t[..len - m] == input[m..];
        assert Rotate(t, len - m) == input;
        assert ShiftString(t, Right, k) == Ok(Rotate(t, len - m));
      }
    }
  }

  /** Shifting right and then left by the same non-negative count restores
    * the input. */
  lemma ShiftRightLeft(input: Str, k: nat)
    ensures ShiftString(input, Right, k).Ok?
    ensures ShiftString(ShiftString(input, Right, k).value, Left, k) == Ok(input)
  {
    if |input| > 0 {
      var len := |input|;
      var m := KRem(k, len);
      if m != 0 {
        var t := Rotate(input, len - m);
        assert ShiftString(input, Right, k) == Ok(t);
        assert |t| == len;
        assert t[m..] == input[..len - m];
        assert t[..m] == input[len - m..];
        assert Rotate(t, m) == input;
        assert ShiftString(t, Left, k) == Ok(Rotate(t, m));
      }
    }
  }

  // ---------------------------------------------------------------------
  // compareClassVersions
  // ---------------------------------------------------------------------

  /** The numeric segments of a dotted version; a segment that is not an
    * `Int` counts as 0. */
  function VersionParts(s: Str): (p: seq<int>)
    ensures |p| == |Split(s, '.')|
  {
    var parts := Split(s, '.');
    seq(|parts|, i requires 0 <= i < |parts| => ToIntOrNull(parts[i]).GetOr(0))
  }

  /** A segment, or 0 past the end. */
  function PartAt(p: seq<int>, i: nat): int
  {
    if i < |p| then p[i] else 0
  }

  function ComparePartsFrom(p1: seq<int>, p2: seq<int>, i: nat): (r: int)
    ensures -1 <= r <= 1
    decreases |p1| + |p2| - i
  {
    if i >= |p1| && i >= |p2| then 0
    else if PartAt(p1, i) != PartAt(p2, i) then
      if PartAt(p1, i) < PartAt(p2, i) then -1 else 1
    else ComparePartsFrom(p1, p2, i + 1)
  }

  /** The comparison from segment `i` on is 0 exactly when no segment from
    * there differs. */
  lemma {:induction false} ComparePartsZero(p1: seq<int>, p2: seq<int>, i: nat)
    ensures ComparePartsFrom(p1, p2, i) == 0 <==> forall j :: i <= j ==> PartAt(p1, j) == PartAt(p2, j)
    decreases |p1| + |p2| - i
  {
    if i >= |p1| && i >= |p2| {
    } else if PartAt(p1, i) != PartAt(p2, i) {
    } else {
      ComparePartsZero(p1, p2, i + 1);
      assert (forall j :: i <= j ==> PartAt(p1, j) == PartAt(p2, j))
        <==> (forall j :: i + 1 <= j ==> PartAt(p1, j) == PartAt(p2, j));
    }
  }

  /** The sign of the first differing segment, missing segments read as 0. */
  function CompareClassVersions(a: Str, b: Str): (r: int)
    ensures -1 <= r <= 1
  {
    ComparePartsFrom(VersionParts(a), VersionParts(b), 0)
  }

  /** Two versions compare equal exactly when every segment agrees. */
  lemma CompareZeroIff(a: Str, b: Str)
    ensures CompareClassVersions(a, b) == 0 <==> forall j :: 0 <= j ==> PartAt(VersionParts(a), j) == PartAt(VersionParts(b), j)
  {
    ComparePartsZero(VersionParts(a), VersionParts(b), 0);
  }

  lemma {:induction false} ComparePartsAntisymmetric(p1: seq<int>, p2: seq<int>, i: nat)
    ensures ComparePartsFrom(p1, p2, i) == -ComparePartsFrom(p2, p1, i)
    decreases |p1| + |p2| - i
  {
    if !(i >= |p1| && i >= |p2|) && PartAt(p1, i) == PartAt(p2, i) {
      ComparePartsAntisymmetric(p1, p2, i + 1);
    }
  }

  lemma {:induction false} ComparePartsTransitive(p1: seq<int>, p2: seq<int>, p3: seq<int>, i: nat)
    requires ComparePartsFrom(p1, p2, i) <= 0 && ComparePartsFrom(p2, p3, i) <= 0
    ensures ComparePartsFrom(p1, p3, i) <= 0
    decreases |p1| + |p2| + |p3| - i
  {
    if PartAt(p1, i) == PartAt(p2, i) && PartAt(p2, i) == PartAt(p3, i) {
      if !(i >= |p1| && i >= |p3|) {
        if i >= |p2| {
          assert ComparePartsFrom(p1, p2, i) == ComparePartsFrom(p1, p2, i + 1);
          assert ComparePartsFrom(p2, p3, i) == ComparePartsFrom(p2, p3, i + 1);
        }
        ComparePartsTransitive(p1, p2, p3, i + 1);
      }
    }
  }

  /** Comparing in the other order flips the sign. */
  lemma CompareAntisymmetric(a: Str, b: Str)
    ensures CompareClassVersions(a, b) == -CompareClassVersions(b, a)
  {
    ComparePartsAntisymmetric(VersionParts(a), VersionParts(b), 0);
  }

  /** "Not newer than" is transitive, so sorting by it is well defined. */
  lemma CompareTransitive(a: Str, b: Str, c: Str)
    requires CompareClassVersions(a, b) <= 0 && CompareClassVersions(b, c) <= 0
    ensures CompareClassVersions(a, c) <= 0
  {
    ComparePartsTransitive(VersionParts(a), VersionParts(b), VersionParts(c), 0);
  }

  /** "At least as new as" is transitive too. */
  lemma CompareChain(a: Str, b: Str, c: Str)
    requires CompareClassVersions(a, b) >= 0 && CompareClassVersions(b, c) >= 0
    ensures CompareClassVersions(a, c) >= 0
  {
    CompareAntisymmetric(a, b);
    CompareAntisymmetric(b, c);
    CompareAntisymmetric(a, c);
    CompareTransitive(c, b, a);
  }

  /** A missing segment compares like an explicit ".0": "1.2" equals "1.2.0". */
  lemma TrailingZeroSegment(a: Str)
    ensures CompareClassVersions(a, a + ".0") == 0
  {
    SplitAppend(a, "0", '.');
    assert ".0" == ['.'] + "0";
    assert a + ".0" == a + ['.'] + "0";
    assert Split("0", '.') == ["0"] by {
      var z: Str := "0";
      assert z[1..] == "";
      assert SplitOn(z[1..], {'.'}) == [""];
      assert z[0] !in {'.'};
      assert SplitOn(z, {'.'}) == [[z[0]] + SplitOn(z[1..], {'.'})[0]] + SplitOn(z[1..], {'.'})[1..];
      assert [z[0]] + SplitOn(z[1..], {'.'})[0] == z;
      assert SplitOn(z[1..], {'.'})[1..] == [];
      assert SplitOn(z, {'.'}) == [z];
    }
    assert ToIntOrNull("0") == Some(0);
    var p := VersionParts(a);
    var q := VersionParts(a + ".0");
    assert |q| == |p| + 1;
    forall j | 0 <= j ensures PartAt(p, j) == PartAt(q, j) {
      if j < |p| {
        assert Split(a + ".0", '.')[j] == Split(a, '.')[j];
      } else if j == |p| {
        assert Split(a + ".0", '.')[j] == "0";
      }
    }
    CompareZeroIff(a, a + ".0");
  }

  // ---------------------------------------------------------------------
  // extractUntilCharacter
  // ---------------------------------------------------------------------

  /** The text between the first `whatFor` and the next `terminator`. */
  function ExtractUntilCharacter(s: Str, whatFor: Str, terminator: char): (r: Option<Str>)
    ensures !Contains(s, whatFor) ==> r == None
    ensures r.Some? ==> terminator !in r.value
    ensures r.Some? ==> OccursAt(s, whatFor + r.value + [terminator], IndexOf(s, whatFor))
    ensures Contains(s, whatFor) ==>
      (r.None? <==> terminator !in s[IndexOf(s, whatFor) + |whatFor|..])
  {
    var found := IndexOf(s, whatFor);
    if found == -1 then None
    else
      var start := found + |whatFor|;
      var t := IndexOfCharFrom(s, terminator, start);
      if t == -1 then None
      else
        OccursExtended(s, whatFor, found, t);
        Some(s[start..t])
  }

  /** An occurrence of `w` at `i` followed by text up to `s[t]` is an
    * occurrence of the longer text. */
  lemma OccursExtended(s: Str, w: Str, i: int, t: int)
    requires OccursAt(s, w, i) && i + |w| <= t < |s|
    ensures OccursAt(s, w + s[i + |w|..t] + [s[t]], i)
  {
    assert s[i..t + 1] == s[i..i + |w|] + s[i + |w|..t] + [s[t]];
  }

  // ---------------------------------------------------------------------
  // insertSingleJSONValue
  // ---------------------------------------------------------------------

  function Placeholder(key: Str): Str { "${" + key + "}" }

  /** Folds over the entries in order, replacing each `${key}` by its value. */
  function InsertSingleJsonValue(s: Str, entries: seq<(Str, Str)>): Str
    decreases |entries|
  {
    if |entries| == 0 then s
    else InsertSingleJsonValue(ReplaceAll(s, Placeholder(entries[0].0), entries[0].1), entries[1..])
  }

  /** `insertJSONValueList`: the substitution applied to every argument. */
  function InsertJsonValueList(args: seq<Str>, entries: seq<(Str, Str)>): (r: seq<Str>)
    ensures |r| == |args|
    ensures forall i :: 0 <= i < |args| ==> r[i] == InsertSingleJsonValue(args[i], entries)
  {
    seq(|args|, i requires 0 <= i < |args| => InsertSingleJsonValue(args[i], entries))
  }

  /** Text with no "${" has nothing to substitute. */
  lemma {:induction false} InsertWithoutPlaceholders(s: Str, entries: seq<(Str, Str)>)
    requires !Contains(s, "${")
    ensures InsertSingleJsonValue(s, entries) == s
    decreases |entries|
  {
    if |entries| > 0 {
      var pat := Placeholder(entries[0].0);
      PlaceholderOpens(s, entries[0].0);
      ReplaceAbsent(s, pat, entries[0].1);
      InsertWithoutPlaceholders(s, entries[1..]);
    }
  }

  /** Text holding a placeholder holds its opening "${". */
  lemma PlaceholderOpens(s: Str, key: Str)
    ensures Contains(s, Placeholder(key)) ==> Contains(s, "${")
  {
    var pat := Placeholder(key);
    if Contains(s, pat) {
      var i := IndexOf(s, pat);
      assert OccursAt(s, pat, i);
      assert pat[..2] == "${";
      assert s[i..i + 2] == s[i..i + |pat|][..2];
      assert OccursAt(s, "${", i);
      ContainsIff(s, "${");
    }
  }

  /** A template as literal text and `${key}` holes. */
  datatype Piece = Lit(text: Str) | Hole(key: Str)

  function Render(ps: seq<Piece>): Str
  {
    if |ps| == 0 then ""
    else (match ps[0] case Lit(t) => t case Hole(k) => Placeholder(k)) + Render(ps[1..])
  }

  /** The value of the first entry with that key. */
  function Lookup(entries: seq<(Str, Str)>, key: Str): Option<Str>
  {
    if |entries| == 0 then None
    else if entries[0].0 == key then Some(entries[0].1)
    else Lookup(entries[1..], key)
  }

  /** What substitution should produce: each hole becomes the value of its
    * key, and a hole with no entry stays as written. */
  function Expand(ps: seq<Piece>, entries: seq<(Str, Str)>): Str
  {
    if |ps| == 0 then ""
    else
      (match ps[0]
       case Lit(t) => t
       case Hole(k) => if Lookup(entries, k).Some? then Lookup(entries, k).value else Placeholder(k))
      + Expand(ps[1..], entries)
  }

  predicate CleanKey(k: Str) { '$' !in k && '}' !in k }

  /** Literals free of '$' and keys free of '$' and '}'. */
  predicate WellFormedTemplate(ps: seq<Piece>)
  {
    forall i :: 0 <= i < |ps| ==>
      match ps[i] case Lit(t) => '$' !in t case Hole(k) => CleanKey(k)
  }

  predicate CleanEntries(entries: seq<(Str, Str)>)
  {
    forall i :: 0 <= i < |entries| ==> CleanKey(entries[i].0) && '$' !in entries[i].1
  }

  /** The template after one entry has been substituted. */
  function SubstOne(ps: seq<Piece>, key: Str, value: Str): (r: seq<Piece>)
    ensures |r| == |ps|
  {
    if |ps| == 0 then []
    else [if ps[0] == Hole(key) then Lit(value) else ps[0]] + SubstOne(ps[1..], key, value)
  }

  /** A placeholder for one key does not start with the placeholder for
    * another. */
  lemma HoleMismatch(k: Str, k2: Str, r: Str)
    requires CleanKey(k) && CleanKey(k2) && k != k2
    ensures !StartsWith(Placeholder(k2) + r, Placeholder(k))
  {
    var s := Placeholder(k2) + r;
    var p := Placeholder(k);
    if |p| <= |s| {
      if |k| < |k2| {
        assert k2[|k|] in k2;
        assert s[2 + |k|] != p[2 + |k|];
      } else if |k| > |k2| {
        assert k[|k2|] in k;
        assert s[2 + |k2|] != p[2 + |k2|];
      } else {
        assert s[2..2 + |k|] == k2;
        assert p[2..2 + |k|] == k;
        assert s[..|p|][2..2 + |k|] != p[2..2 + |k|];
      }
    }
  }

  /** A placeholder for another key passes through unchanged. */
  lemma ReplaceOtherHole(k: Str, key: Str, rest: Str, value: Str)
    requires CleanKey(k) && CleanKey(key) && k != key
    ensures ReplaceAll(Placeholder(k) + rest, Placeholder(key), value)
      == Placeholder(k) + ReplaceAll(rest, Placeholder(key), value)
  {
    var pat := Placeholder(key);
    var ph := Placeholder(k);
    HoleMismatch(key, k, rest);
    ReplaceStep(ph + rest, pat, value);
    SplitHead(ph, rest);
    PlaceholderTail(k);
    ReplacePassThrough(ph[1..], rest, pat, value);
    ConcatAssoc([ph[0]], ph[1..], ReplaceAll(rest, pat, value));
  }

  lemma SplitHead<T>(a: seq<T>, b: seq<T>)
    requires |a| > 0
    ensures (a + b)[0] == a[0] && (a + b)[1..] == a[1..] + b
    ensures [a[0]] + a[1..] == a
  {
  }

  /** Past its '$', a placeholder for a clean key has no other '$'. */
  lemma PlaceholderTail(k: Str)
    requires CleanKey(k)
    ensures |Placeholder(k)| > 0 && Placeholder(k)[0] == '$' && '$' !in Placeholder(k)[1..]
  {
    assert Placeholder(k)[1..] == "{" + k + "}";
  }

  function PieceText(p: Piece): Str
  {
    match p case Lit(t) => t case Hole(k) => Placeholder(k)
  }

  lemma RenderCons(ps: seq<Piece>)
    requires |ps| > 0
    ensures Render(ps) == PieceText(ps[0]) + Render(ps[1..])
  {
  }

  lemma WellFormedTail(ps: seq<Piece>)
    requires |ps| > 0 && WellFormedTemplate(ps)
    ensures WellFormedTemplate(ps[1..])
    ensures match ps[0] case Lit(t) => '$' !in t case Hole(k) => CleanKey(k)
  {
    assert forall i :: 0 <= i < |ps[1..]| ==> ps[1..][i] == ps[i + 1];
  }

  lemma {:induction false} ReplaceRender(ps: seq<Piece>, key: Str, value: Str)
    requires WellFormedTemplate(ps) && CleanKey(key)
    ensures ReplaceAll(Render(ps), Placeholder(key), value) == Render(SubstOne(ps, key, value))
    decreases |ps|
  {
    var pat := Placeholder(key);
    if |ps| > 0 {
      var rest := Render(ps[1..]);
      WellFormedTail(ps);
      ReplaceRender(ps[1..], key, value);
      RenderCons(ps);
      var sub := SubstOne(ps, key, value);
      assert sub[1..] == SubstOne(ps[1..], key, value);
      RenderCons(sub);
      match ps[0]
      case Lit(t) =>
        ReplacePassThrough(t, rest, pat, value);
      case Hole(k) =>
        if k == key {
          ReplaceAtMatch(rest, pat, value);
        } else {
          ReplaceOtherHole(k, key, rest, value);
        }
    }
  }

  lemma {:induction false} ExpandSubst(ps: seq<Piece>, e: (Str, Str), rest: seq<(Str, Str)>)
    ensures Expand(SubstOne(ps, e.0, e.1), rest) == Expand(ps, [e] + rest)
    decreases |ps|
  {
    if |ps| > 0 {
      ExpandSubst(ps[1..], e, rest);
      assert ([e] + rest)[1..] == rest;
    }
  }

  lemma {:induction false} ExpandNoEntries(ps: seq<Piece>)
    ensures Expand(ps, []) == Render(ps)
    decreases |ps|
  {
    if |ps| > 0 {
      ExpandNoEntries(ps[1..]);
    }
  }

  lemma SubstKeepsWellFormed(ps: seq<Piece>, key: Str, value: Str)
    requires WellFormedTemplate(ps) && '$' !in value
    ensures WellFormedTemplate(SubstOne(ps, key, value))
    ensures forall i :: 0 <= i < |ps| ==>
      SubstOne(ps, key, value)[i] == if ps[i] == Hole(key) then Lit(value) else ps[i]
    decreases |ps|
  {
    if |ps| > 0 {
      SubstKeepsWellFormed(ps[1..], key, value);
    }
  }

  /** Substitution over a well-formed template puts each key's first value
    * in place of its holes and leaves everything else as it was. */
  lemma {:induction false} InsertExpands(ps: seq<Piece>, entries: seq<(Str, Str)>)
    requires WellFormedTemplate(ps) && CleanEntries(entries)
    ensures InsertSingleJsonValue(Render(ps), entries) == Expand(ps, entries)
    decreases |entries|
  {
    if |entries| == 0 {
      ExpandNoEntries(ps);
    } else {
      var e := entries[0];
      ReplaceRender(ps, e.0, e.1);
      SubstKeepsWellFormed(ps, e.0, e.1);
      assert CleanEntries(entries[1..]) by {
        forall i | 0 <= i < |entries[1..]|
          ensures CleanKey(entries[1..][i].0) && '$' !in entries[1..][i].1
        {
          assert entries[1..][i] == entries[i + 1];
        }
      }
      InsertExpands(SubstOne(ps, e.0, e.1), entries[1..]);
      ExpandSubst(ps, e, entries[1..]);
      assert entries == [e] + entries[1..];
    }
  }

  // ---------------------------------------------------------------------
  // splitPreservingQuotes
  // ---------------------------------------------------------------------

  /** The splitter's state after a prefix: finished parts, the part being
    * built, whether a quote is open, and the previous character. */
  datatype QuoteState = QuoteState(parts: seq<Str>, current: Str, inQuotes: bool, prev: Option<char>)

  predicate PartsNonEmpty(parts: seq<Str>) { forall i :: 0 <= i < |parts| ==> |parts[i]| > 0 }

  /** A quote not preceded by a backslash toggles quoting and is dropped; the
    * delimiter outside quotes ends a non-empty part; anything else is kept. */
  function QuoteStep(st: QuoteState, c: char, delimiter: char): (r: QuoteState)
    ensures PartsNonEmpty(st.parts) ==> PartsNonEmpty(r.parts)
    ensures r.prev == Some(c)
  {
    if c == '"' && (st.prev.None? || st.prev.value != '\\') then
      st.(inQuotes := !st.inQuotes, prev := Some(c))
    else if c == delimiter && !st.inQuotes then
      if |st.current| > 0 then QuoteState(st.parts + [st.current], "", st.inQuotes, Some(c))
      else st.(prev := Some(c))
    else st.(current := st.current + [c], prev := Some(c))
  }

  function QuoteRun(st: QuoteState, s: Str, delimiter: char): (r: QuoteState)
    ensures PartsNonEmpty(st.parts) ==> PartsNonEmpty(r.parts)
    decreases |s|
  {
    if |s| == 0 then st else QuoteRun(QuoteStep(st, s[0], delimiter), s[1..], delimiter)
  }

  function QuoteFinish(st: QuoteState): seq<Str>
  {
    if |st.current| > 0 then st.parts + [st.current] else st.parts
  }

  const QuoteStart := QuoteState([], "", false, None)

  function SplitPreservingQuotes(s: Str, delimiter: char): (r: seq<Str>)
    ensures PartsNonEmpty(r)
  {
    QuoteFinish(QuoteRun(QuoteStart, s, delimiter))
  }

  lemma {:induction false} QuoteRunAppend(st: QuoteState, x: Str, y: Str, d: char)
    ensures QuoteRun(st, x + y, d) == QuoteRun(QuoteRun(st, x, d), y, d)
    decreases |x|
  {
    if |x| > 0 {
      assert (x + y)[0] == x[0];
      assert (x + y)[1..] == x[1..] + y;
      QuoteRunAppend(QuoteStep(st, x[0], d), x[1..], y, d);
    } else {
      assert x + y == y;
    }
  }

  /** The non-empty parts of a split, in order. */
  function NonEmptyParts(parts: seq<Str>): (r: seq<Str>)
    ensures PartsNonEmpty(r)
  {
    if |parts| == 0 then []
    else (if |parts[0]| > 0 then [parts[0]] else []) + NonEmptyParts(parts[1..])
  }

  lemma {:induction false} QuoteFreeRun(st: QuoteState, s: Str, d: char)
    requires '"' !in s && !st.inQuotes
    ensures QuoteFinish(QuoteRun(st, s, d))
      == st.parts + NonEmptyParts([st.current + Split(s, d)[0]] + Split(s, d)[1..])
    decreases |s|
  {
    var sp := Split(s, d);
    if |s| == 0 {
      assert st.current + sp[0] == st.current;
    } else {
      var rest := Split(s[1..], d);
      var st1 := QuoteStep(st, s[0], d);
      assert QuoteRun(st, s, d) == QuoteRun(st1, s[1..], d);
      assert '"' !in s[1..] by { assert forall x :: x in s[1..] ==> x in s; }
      QuoteFreeRun(st1, s[1..], d);
      SplitOnCons(s[0], s[1..], {d});
      assert [s[0]] + s[1..] == s;
      if s[0] == d {
        DelimiterCase(st, st1, sp, rest);
      } else {
        assert s[0] != '"' by { assert s[0] in s; }
        OtherCharCase(st, st1, sp, rest, s[0]);
      }
    }
  }

  /** A delimiter outside quotes closes the current part, if any. */
  lemma DelimiterCase(st: QuoteState, st1: QuoteState, sp: seq<Str>, rest: seq<Str>)
    requires |rest| > 0 && sp == [""] + rest
    requires st1.current == "" && st1.parts == (if |st.current| > 0 then st.parts + [st.current] else st.parts)
    ensures st1.parts + NonEmptyParts([st1.current + rest[0]] + rest[1..])
      == st.parts + NonEmptyParts([st.current + sp[0]] + sp[1..])
  {
    var cur := st.current;
    EmptyFront(rest);
    DelimiterFront(cur, sp, rest);
    NonEmptyPartsCons(cur, rest);
    var tail := NonEmptyParts(rest);
    if |cur| > 0 {
      ConcatAssoc(st.parts, [cur], tail);
    } else {
      assert [] + tail == tail;
    }
  }

  lemma DelimiterFront(cur: Str, sp: seq<Str>, rest: seq<Str>)
    requires |rest| > 0 && sp == [""] + rest
    ensures [cur + sp[0]] + sp[1..] == [cur] + rest
  {
    assert cur + sp[0] == cur;
    assert sp[1..] == rest;
  }

  /** Any other character outside quotes extends the current part. */
  lemma OtherCharCase(st: QuoteState, st1: QuoteState, sp: seq<Str>, rest: seq<Str>, c: char)
    requires |rest| > 0 && sp == [[c] + rest[0]] + rest[1..]
    requires st1.current == st.current + [c] && st1.parts == st.parts
    ensures st1.parts + NonEmptyParts([st1.current + rest[0]] + rest[1..])
      == st.parts + NonEmptyParts([st.current + sp[0]] + sp[1..])
  {
    assert st.current + sp[0] == st1.current + rest[0];
    assert sp[1..] == rest[1..];
  }

  lemma EmptyFront(xs: seq<Str>)
    requires |xs| > 0
    ensures [[] + xs[0]] + xs[1..] == xs
  {
    assert [] + xs[0] == xs[0];
    assert [xs[0]] + xs[1..] == xs;
  }

  lemma NonEmptyPartsCons(x: Str, xs: seq<Str>)
    ensures NonEmptyParts([x] + xs) == (if |x| > 0 then [x] else []) + NonEmptyParts(xs)
  {
    assert ([x] + xs)[1..] == xs;
  }

  /** Without quotes the splitter is Kotlin's split with empty parts dropped. */
  lemma QuoteFreeSplit(s: Str, d: char)
    requires '"' !in s
    ensures SplitPreservingQuotes(s, d) == NonEmptyParts(Split(s, d))
  {
    QuoteFreeRun(QuoteStart, s, d);
    assert "" + Split(s, d)[0] == Split(s, d)[0];
    assert [Split(s, d)[0]] + Split(s, d)[1..] == Split(s, d);
  }

  /** An item that survives quoting: non-empty, free of '"', and not ending
    * in a backslash that would escape the closing quote. */
  predicate Quotable(x: Str) { |x| > 0 && '"' !in x && x[|x| - 1] != '\\' }

  function Quote(x: Str): Str { "\"" + x + "\"" }

  function QuoteAll(xs: seq<Str>): (r: seq<Str>)
    ensures |r| == |xs|
    ensures forall i :: 0 <= i < |xs| ==> r[i] == Quote(xs[i])
  {
    seq(|xs|, i requires 0 <= i < |xs| => Quote(xs[i]))
  }

  function Spaced(xs: seq<Str>): (r: seq<Str>)
    ensures |r| == |xs|
    ensures forall i :: 0 <= i < |xs| ==> r[i] == " " + xs[i]
  {
    seq(|xs|, i requires 0 <= i < |xs| => " " + xs[i])
  }

  lemma {:induction false} RunInsideQuotes(st: QuoteState, x: Str, d: char)
    requires st.inQuotes && '"' !in x && |x| > 0
    ensures QuoteRun(st, x, d) == QuoteState(st.parts, st.current + x, true, Some(x[|x| - 1]))
    decreases |x|
  {
    var st1 := QuoteStep(st, x[0], d);
    assert st1 == QuoteState(st.parts, st.current + [x[0]], true, Some(x[0]));
    if |x| > 1 {
      RunInsideQuotes(st1, x[1..], d);
      assert st.current + [x[0]] + x[1..] == st.current + x;
    } else {
      assert st.current + [x[0]] == st.current + x;
    }
  }

  lemma RunQuoted(st: QuoteState, x: Str, d: char)
    requires !st.inQuotes && st.prev != Some('\\') && Quotable(x)
    ensures QuoteRun(st, Quote(x), d) == QuoteState(st.parts, st.current + x, false, Some('"'))
  {
    var q := Quote(x);
    assert q == ['"'] + (x + ['"']);
    QuoteRunAppend(st, ['"'], x + ['"'], d);
    var st1 := QuoteRun(st, ['"'], d);
    assert st1 == st.(inQuotes := true, prev := Some('"'));
    QuoteRunAppend(st1, x, ['"'], d);
    RunInsideQuotes(st1, x, d);
  }

  lemma RunQuotedThenDelimiter(st: QuoteState, x: Str, d: char)
    requires !st.inQuotes && st.prev != Some('\\') && Quotable(x) && d != ' ' && d != '"'
    ensures QuoteRun(st, Quote(x) + [d, ' '], d)
      == QuoteState(st.parts + [st.current + x], " ", false, Some(' '))
  {
    RunQuoted(st, x, d);
    QuoteRunAppend(st, Quote(x), [d, ' '], d);
    var st1 := QuoteRun(st, Quote(x), d);
    var st2 := QuoteStep(st1, d, d);
    assert st2 == QuoteState(st.parts + [st.current + x], "", false, Some(d));
    assert [d, ' '][1..] == [' '];
    assert QuoteRun(st1, [d, ' '], d) == QuoteRun(st2, [' '], d);
    assert QuoteRun(st2, [' '], d) == QuoteStep(st2, ' ', d);
  }

  lemma SpacedCons(xs: seq<Str>)
    requires |xs| > 0
    ensures Spaced(xs) == [" " + xs[0]] + Spaced(xs[1..])
  {
  }

  lemma JoinCons(parts: seq<Str>, sep: Str)
    requires |parts| > 1
    ensures JoinWith(parts, sep) == parts[0] + sep + JoinWith(parts[1..], sep)
  {
  }

  lemma {:induction false} RunQuotedList(st: QuoteState, xs: seq<Str>, d: char)
    requires |xs| > 0 && forall i :: 0 <= i < |xs| ==> Quotable(xs[i])
    requires !st.inQuotes && st.prev != Some('\\') && d != ' ' && d != '"'
    ensures QuoteFinish(QuoteRun(st, JoinWith(QuoteAll(xs), [d, ' ']), d))
      == st.parts + [st.current + xs[0]] + Spaced(xs[1..])
    decreases |xs|
  {
    var sep := [d, ' '];
    var qs := QuoteAll(xs);
    if |xs| == 1 {
      RunQuoted(st, xs[0], d);
      assert JoinWith(qs, sep) == Quote(xs[0]);
    } else {
      var rest := xs[1..];
      var tail := JoinWith(QuoteAll(rest), sep);
      var full := JoinWith(qs, sep);
      JoinCons(qs, sep);
      assert qs[1..] == QuoteAll(rest);
      ConcatAssoc(Quote(xs[0]), sep, tail);
      var st2 := QuoteState(st.parts + [st.current + xs[0]], " ", false, Some(' '));
      RunQuotedThenDelimiter(st, xs[0], d);
      QuoteRunAppend(st, Quote(xs[0]) + sep, tail, d);
      assert QuoteRun(st, full, d) == QuoteRun(st2, tail, d);
      assert forall i :: 0 <= i < |rest| ==> Quotable(rest[i]) by {
        assert forall i :: 0 <= i < |rest| ==> rest[i] == xs[i + 1];
      }
      RunQuotedList(st2, rest, d);
      SpacedCons(rest);
      ConcatAssoc(st.parts + [st.current + xs[0]], [" " + rest[0]], Spaced(rest[1..]));
    }
  }

  /** Quoted items joined by the delimiter and a space split back into the
    * items, each after the first keeping its leading space. */
  lemma SplitQuotedList(xs: seq<Str>, d: char)
    requires forall i :: 0 <= i < |xs| ==> Quotable(xs[i])
    requires d != ' ' && d != '"'
    ensures |xs| > 0 ==> SplitPreservingQuotes(JoinWith(QuoteAll(xs), [d, ' ']), d) == [xs[0]] + Spaced(xs[1..])
    ensures |xs| == 0 ==> SplitPreservingQuotes(JoinWith(QuoteAll(xs), [d, ' ']), d) == []
  {
    if |xs| > 0 {
      RunQuotedList(QuoteStart, xs, d);
      assert "" + xs[0] == xs[0];
    }
  }
}

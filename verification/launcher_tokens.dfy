/** What the Java-argument tokenizer makes of a whole input. The tokenizer
  * tries the separators in their listed order and, for each, cuts out
  * every fragment that starts with it; so the arguments come back grouped
  * by the first separator each starts with, and in input order within a
  * group. The theorem holds for inputs built from "clean" fragments:
  * fragments that do not interfere with one another's cutting. */
module LauncherTokens {
  import opened KotlinText
  import opened Launcher
  import opened Grouping

  // ---------------------------------------------------------------------
  // Clean fragments
  // ---------------------------------------------------------------------

  /** Text that starts with '-' and holds no other '-'. */
  predicate Led(f: Str)
  {
    |f| >= 2 && f[0] == '-' && forall k :: 1 <= k < |f| ==> f[k] != '-'
  }

  /** Led text other than the bare "-XX:" (which, followed by the next
    * fragment's '-', would spell "-XX:-"). */
  predicate Cuttable(f: Str)
  {
    Led(f) && f != "-XX:"
  }

  predicate AllLed(fs: seq<Str>)
  {
    forall j :: 0 <= j < |fs| ==> Led(fs[j])
  }

  predicate AllCuttable(fs: seq<Str>)
  {
    forall j :: 0 <= j < |fs| ==> Cuttable(fs[j])
  }

  predicate AllSeparated(fs: seq<Str>)
  {
    forall j :: 0 <= j < |fs| ==> StartsWithSeparator(fs[j])
  }

  /** Every fragment starts with one of `seps`. */
  predicate SeparatedBy(fs: seq<Str>, seps: seq<Str>)
  {
    forall j :: 0 <= j < |fs| ==> StartsWithOneOf(fs[j], seps)
  }

  predicate StartsWithOneOf(f: Str, seps: seq<Str>)
  {
    exists m :: 0 <= m < |seps| && StartsWith(f, seps[m])
  }

  /** Every one of `seps` starts with '-'. */
  predicate DashLed(seps: seq<Str>)
  {
    forall m :: 0 <= m < |seps| ==> |seps[m]| > 0 && seps[m][0] == '-'
  }

  /** A cuttable fragment starting with a separator, with at most one '='
    * and without ',' or whitespace: one the tokenizer neither drops nor
    * glues. */
  predicate CleanFragment(f: Str)
  {
    Cuttable(f) && StartsWithSeparator(f) && Accepted(f)
    && forall k :: 0 <= k < |f| ==> f[k] != ',' && !IsWhitespace(f[k])
  }

  predicate CleanFragments(fs: seq<Str>)
  {
    forall j :: 0 <= j < |fs| ==> CleanFragment(fs[j])
  }

  /** No fragment starts with `f`. */
  predicate Avoid(fs: seq<Str>, f: Str)
  {
    forall k :: 0 <= k < |fs| ==> !StartsWith(fs[k], f)
  }

  /** No fragment begins with another one (so in particular none repeats):
    * removing one fragment's text leaves the others whole. */
  predicate PrefixFree(fs: seq<Str>)
  {
    forall a, b :: 0 <= a < |fs| && 0 <= b < |fs| && a != b ==> !StartsWith(fs[b], fs[a])
  }

  // ---------------------------------------------------------------------
  // The reference: fragments grouped by separator
  // ---------------------------------------------------------------------

  /** The index of the first separator `f` starts with, from `k` on, or the
    * number of separators when it starts with none. */
  function RankFrom(f: Str, k: nat): (r: nat)
    requires k <= |Separators|
    ensures k <= r <= |Separators|
    ensures r < |Separators| ==> StartsWith(f, Separators[r])
    ensures forall m {:trigger StartsWith(f, Separators[m])} :: k <= m < r ==> !StartsWith(f, Separators[m])
    decreases |Separators| - k
  {
    if k == |Separators| then k
    else if StartsWith(f, Separators[k]) then k
    else RankFrom(f, k + 1)
  }

  function Rank(f: Str): nat
  {
    RankFrom(f, 0)
  }

  /** The fragments of rank `i`, then those of rank `i + 1`, and so on,
    * each group in input order. */
  function ByRank(fs: seq<Str>, i: nat): seq<Str>
    requires i <= |Separators|
  {
    Grouped(fs, Rank, i, |Separators|)
  }

  // ---------------------------------------------------------------------
  // The theorem
  // ---------------------------------------------------------------------

  /** A string of clean, prefix-free fragments is cut back into exactly
    * those fragments, grouped by the first separator each starts with. */
  lemma ParseClean(fs: seq<Str>)
    requires CleanFragments(fs) && PrefixFree(fs)
    ensures ParseJavaArguments(Flatten(fs)) == ByRank(fs, 0)
  {
    var s := Flatten(fs);
    ParseFromClean(fs, 0, []);
    NoSpaces(fs);
    CleanTrimmed(fs);
    MissingCharAbsent(s, " ", ' ');
    ReplaceAbsent(s, " ", "");
    EmptyLeft([], ByRank(fs, 0));
  }

  /** Fragments already listed in separator order come back unchanged. */
  lemma {:induction false} ParseOrdered(fs: seq<Str>)
    requires CleanFragments(fs) && PrefixFree(fs)
    requires forall a, b :: 0 <= a < b < |fs| ==> Rank(fs[a]) <= Rank(fs[b])
    ensures ParseJavaArguments(Flatten(fs)) == fs
  {
    ParseClean(fs);
    forall j | 0 <= j < |fs| ensures Rank(fs[j]) < |Separators| {
      CleanRanked(fs[j]);
    }
    GroupedSorted(fs, Rank, 0, |Separators|);
  }

  /** A single clean argument is returned as it is. */
  lemma ParseSingle(f: Str)
    requires CleanFragment(f)
    ensures ParseJavaArguments(f) == [f]
  {
    assert Flatten([f]) == Flatten([]) + f == f;
    ParseOrdered([f]);
  }

  /** "-Xmx1G-Dfoo=1" parses to ["-Dfoo=1", "-Xmx1G"]: "-D" is tried
    * before "-X", so the property comes first. */
  lemma ReorderExample()
    ensures ParseJavaArguments("-Xmx1G-Dfoo=1") == ["-Dfoo=1", "-Xmx1G"]
  {
    var a, b := "-Xmx1G", "-Dfoo=1";
    CleanXmx();
    CleanDfoo();
    PairPrefixFree(a, b);
    FlattenPair(a, b);
    ExampleText();
    ParseClean([a, b]);
    RankXmx();
    RankDfoo();
    GroupedSwap(a, b, Rank, |Separators|);
  }

  lemma ExampleText()
    ensures "-Xmx1G" + "-Dfoo=1" == "-Xmx1G-Dfoo=1"
  {
  }

  /** Two fragments that differ in their second character. */
  lemma PairPrefixFree(a: Str, b: Str)
    requires |a| >= 2 && |b| >= 2 && a[1] != b[1]
    ensures PrefixFree([a, b])
  {
    NotStart(a, b, 1);
    NotStart(b, a, 1);
  }

  lemma FlattenPair(a: Str, b: Str)
    ensures Flatten([a, b]) == a + b
  {
    assert [a, b][..1] == [a];
    assert Flatten([a]) == Flatten([]) + a;
    EmptyLeft(Flatten([]), a);
  }

  // ---------------------------------------------------------------------
  // The induction over the tokenizer's loop
  // ---------------------------------------------------------------------

  lemma {:induction false} ParseFromClean(fs: seq<Str>, i: nat, parsed: seq<Str>)
    requires i <= |Separators|
    requires CleanFragments(fs) && PrefixFree(fs)
    requires forall j :: 0 <= j < |fs| ==> Rank(fs[j]) >= i
    requires WellParsed(parsed) && forall j :: 0 <= j < |parsed| ==> ',' !in parsed[j]
    ensures ' ' !in Flatten(fs)
    ensures ParseFrom(Flatten(fs), i, parsed) == parsed + ByRank(fs, i)
    decreases |Separators| - i, |fs|, 1
  {
    NoSpaces(fs);
    if i == |Separators| {
      CleanAreCuttable(fs);
      EmptyRight(parsed, []);
    } else if !Contains(Flatten(fs), Separators[i]) {
      ParseSkip(fs, i, parsed);
    } else {
      ParseTake(fs, i, parsed);
    }
  }

  /** A separator that does not occur adds nothing, and no fragment has its
    * rank. */
  lemma {:induction false} ParseSkip(fs: seq<Str>, i: nat, parsed: seq<Str>)
    requires i < |Separators| && !Contains(Flatten(fs), Separators[i])
    requires CleanFragments(fs) && PrefixFree(fs)
    requires forall j :: 0 <= j < |fs| ==> Rank(fs[j]) >= i
    requires WellParsed(parsed) && forall j :: 0 <= j < |parsed| ==> ',' !in parsed[j]
    ensures ' ' !in Flatten(fs)
    ensures ParseFrom(Flatten(fs), i, parsed) == parsed + ByRank(fs, i)
    decreases |Separators| - i, |fs|, 0
  {
    NoSpaces(fs);
    SkipRanked(fs, i);
    ParseFromClean(fs, i + 1, parsed);
  }

  /** Fragments of rank at least `i`, none starting with the `i`th
    * separator, have rank at least `i + 1`. */
  lemma {:induction false} SkipRanked(fs: seq<Str>, i: nat)
    requires i < |Separators| && !Contains(Flatten(fs), Separators[i])
    requires forall j :: 0 <= j < |fs| ==> Rank(fs[j]) >= i
    ensures forall j :: 0 <= j < |fs| ==> Rank(fs[j]) >= i + 1
    ensures ByRank(fs, i) == ByRank(fs, i + 1)
  {
    forall j | 0 <= j < |fs| ensures Rank(fs[j]) >= i + 1 {
      StartContained(fs, j, Separators[i]);
    }
    KeyedNone(fs, Rank, i);
    EmptyLeft([], ByRank(fs, i + 1));
  }

  /** A separator that occurs takes out the first fragment it starts, which
    * leads the fragments of its rank. */
  lemma {:induction false} ParseTake(fs: seq<Str>, i: nat, parsed: seq<Str>)
    requires i < |Separators| && Contains(Flatten(fs), Separators[i])
    requires CleanFragments(fs) && PrefixFree(fs)
    requires forall j :: 0 <= j < |fs| ==> Rank(fs[j]) >= i
    requires WellParsed(parsed) && forall j :: 0 <= j < |parsed| ==> ',' !in parsed[j]
    ensures ' ' !in Flatten(fs)
    ensures ParseFrom(Flatten(fs), i, parsed) == parsed + ByRank(fs, i)
    decreases |Separators| - i, |fs|, 0
  {
    FirstFragment(fs, i);
    var j := FirstStarting(fs, Separators[i]);
    var f, rest := fs[j], fs[..j] + fs[j + 1..];
    StepClean(fs, i, parsed, j, rest);
    TakeFirst(fs, i, j, rest);
    AddClean(parsed, f);
    ParseFromClean(rest, i, parsed + [f]);
    ConcatAssoc(parsed, [f], ByRank(rest, i));
  }

  /** One pass of the loop on clean text: the first fragment starting with
    * the separator is cut out and added, and the loop goes on with the
    * text of the others. */
  lemma {:induction false} StepClean(fs: seq<Str>, i: nat, parsed: seq<Str>, j: nat, rest: seq<Str>)
    requires i < |Separators| && CleanFragments(fs) && PrefixFree(fs)
    requires Contains(Flatten(fs), Separators[i])
    requires WellParsed(parsed) && forall k :: 0 <= k < |parsed| ==> ',' !in parsed[k]
    requires j == FirstStarting(fs, Separators[i]) && j < |fs|
    requires rest == fs[..j] + fs[j + 1..]
    ensures ' ' !in Flatten(fs) && ' ' !in Flatten(rest) && WellParsed(parsed + [fs[j]])
    ensures ParseFrom(Flatten(fs), i, parsed) == ParseFrom(Flatten(rest), i, parsed + [fs[j]])
  {
    NoSpaces(fs);
    CleanAreCuttable(fs);
    SeparatorsSafe();
    CutClean(fs, j, i);
    ReplaceClean(fs, j);
    RemoveClean(fs, j);
    NoSpaces(rest);
    AddClean(parsed, fs[j]);
  }

  /** Clean text holding a separator has a fragment starting with it. */
  lemma {:induction false} FirstFragment(fs: seq<Str>, i: nat)
    requires i < |Separators| && CleanFragments(fs)
    requires Contains(Flatten(fs), Separators[i])
    ensures FirstStarting(fs, Separators[i]) < |fs|
  {
    CleanAreCuttable(fs);
    SeparatorsSafe();
    SomeFragmentStarts(fs, Separators[i]);
  }

  /** The first fragment starting with the `i`th separator leads the
    * fragments of rank `i`, and the others stay clean and ranked. */
  lemma {:induction false} TakeFirst(fs: seq<Str>, i: nat, j: nat, rest: seq<Str>)
    requires i < |Separators| && CleanFragments(fs) && PrefixFree(fs)
    requires forall k :: 0 <= k < |fs| ==> Rank(fs[k]) >= i
    requires j == FirstStarting(fs, Separators[i]) && j < |fs|
    requires rest == fs[..j] + fs[j + 1..]
    ensures |rest| < |fs| && CleanFragments(rest) && PrefixFree(rest)
    ensures forall k :: 0 <= k < |rest| ==> Rank(rest[k]) >= i
    ensures ByRank(fs, i) == [fs[j]] + ByRank(rest, i)
  {
    RemoveOne(fs, j, i);
    forall k | 0 <= k < j ensures Rank(fs[k]) != i {
      assert !StartsWith(fs[k], Separators[i]);
    }
    GroupedTake(fs, j, Rank, i, |Separators|);
  }

  lemma CleanAreCuttable(fs: seq<Str>)
    requires CleanFragments(fs)
    ensures AllCuttable(fs) && AllLed(fs) && AllSeparated(fs)
  {
  }

  lemma CuttableAreLed(fs: seq<Str>)
    requires AllCuttable(fs)
    ensures AllLed(fs)
  {
  }

  /** Adding a clean fragment after comma-free arguments appends it. */
  lemma AddClean(parsed: seq<Str>, f: Str)
    requires CleanFragment(f)
    requires WellParsed(parsed) && forall j :: 0 <= j < |parsed| ==> ',' !in parsed[j]
    ensures AddFragment(parsed, f) == parsed + [f]
    ensures WellParsed(parsed + [f]) && forall j :: 0 <= j < |parsed| + 1 ==> ',' !in (parsed + [f])[j]
  {
    assert ',' !in f;
    assert ' ' !in f by { assert IsWhitespace(' '); }
    if |parsed| > 0 {
      var last := parsed[|parsed| - 1];
      assert ',' !in last;
      if |last| > 0 {
        assert last[|last| - 1..][0] == last[|last| - 1];
      }
      assert !EndsWith(last, ",");
    }
  }

  /** The index of the first fragment starting with `w`, or `|fs|`. */
  function FirstStarting(fs: seq<Str>, w: Str): (j: nat)
    ensures j <= |fs|
    ensures j < |fs| ==> StartsWith(fs[j], w)
    ensures forall k :: 0 <= k < j ==> !StartsWith(fs[k], w)
  {
    if |fs| == 0 then 0
    else if StartsWith(fs[0], w) then 0
    else 1 + FirstStarting(fs[1..], w)
  }

  /** Taking out the `j`th fragment keeps the rest clean, prefix-free and
    * of rank at least `i`. */
  lemma RemoveOne(fs: seq<Str>, j: nat, i: nat)
    requires j < |fs| && CleanFragments(fs) && PrefixFree(fs)
    requires forall k :: 0 <= k < |fs| ==> Rank(fs[k]) >= i
    ensures var rest := fs[..j] + fs[j + 1..];
      |rest| < |fs| && CleanFragments(rest) && PrefixFree(rest)
      && forall k :: 0 <= k < |rest| ==> Rank(rest[k]) >= i
  {
    RemoveClean(fs, j);
    RemovePrefixFree(fs, j);
    RemoveRanked(fs, j, i);
  }

  lemma RemoveClean(fs: seq<Str>, j: nat)
    requires j < |fs| && CleanFragments(fs)
    ensures CleanFragments(fs[..j] + fs[j + 1..])
  {
    var rest := fs[..j] + fs[j + 1..];
    forall k | 0 <= k < |rest| ensures CleanFragment(rest[k]) {
      RemoveAt(fs, j, k);
    }
  }

  lemma RemovePrefixFree(fs: seq<Str>, j: nat)
    requires j < |fs| && PrefixFree(fs)
    ensures PrefixFree(fs[..j] + fs[j + 1..])
  {
    var rest := fs[..j] + fs[j + 1..];
    forall a, b | 0 <= a < |rest| && 0 <= b < |rest| && a != b
      ensures !StartsWith(rest[b], rest[a])
    {
      RemoveAt(fs, j, a);
      RemoveAt(fs, j, b);
    }
  }

  lemma RemoveRanked(fs: seq<Str>, j: nat, i: nat)
    requires j < |fs| && forall k :: 0 <= k < |fs| ==> Rank(fs[k]) >= i
    ensures var rest := fs[..j] + fs[j + 1..];
      forall k :: 0 <= k < |rest| ==> Rank(rest[k]) >= i
  {
    var rest := fs[..j] + fs[j + 1..];
    forall k | 0 <= k < |rest| ensures Rank(rest[k]) >= i {
      RemoveAt(fs, j, k);
    }
  }

  // ---------------------------------------------------------------------
  // Separators and fragments
  // ---------------------------------------------------------------------

  /** A separator as the proofs below use it: it starts with '-' and, past
    * its first two characters, has a '-' only right after "-XX:". */
  predicate SafeSeparator(sep: Str)
  {
    |sep| >= 2 && sep[0] == '-'
    && forall k :: 2 <= k < |sep| && sep[k] == '-' ==> sep[..k] == "-XX:"
  }

  /** Every separator is safe; "-XX:-" is the one with an inner '-'. */
  lemma SeparatorsSafe()
    ensures forall m :: 0 <= m < |Separators| ==> SafeSeparator(Separators[m])
  {
    assert Separators[0][..4] == "-XX:";
  }

  /** Where a cuttable fragment is followed by text that is empty or starts
    * a new fragment, a safe separator it does not start with does not
    * occur at its start. */
  lemma SeparatorNotAtStart(g: Str, r: Str, sep: Str)
    requires SafeSeparator(sep) && Cuttable(g) && !StartsWith(g, sep)
    requires r == "" || r[0] == '-'
    ensures !OccursAt(g + r, sep, 0)
  {
    if |sep| <= |g| {
      assert (g + r)[0..|sep|] == g[..|sep|];
    } else if |sep| <= |g + r| {
      if sep[..|g|] == g {
        assert sep[|g|] != '-';
        assert (g + r)[0..|sep|][|g|] == r[0];
      } else {
        assert (g + r)[0..|sep|][..|g|] == g;
      }
    }
  }

  /** A word does not occur where its first character is missing. */
  lemma NotAtOther(s: Str, w: Str, p: nat)
    requires |w| > 0 && (p < |s| ==> s[p] != w[0])
    ensures !OccursAt(s, w, p)
  {
    if p + |w| <= |s| {
      assert s[p..p + |w|][0] == s[p];
    }
  }

  /** Occurrences past a prefix are occurrences in the rest. */
  lemma OccursPast(g: Str, r: Str, w: Str, p: nat)
    requires |g| <= p
    ensures OccursAt(g + r, w, p) <==> OccursAt(r, w, p - |g|)
  {
    if p + |w| <= |g + r| {
      assert (g + r)[p..p + |w|] == r[p - |g|..p - |g| + |w|];
    }
  }

  /** No safe separator that a list of cuttable fragments avoids occurs
    * inside their text, whatever new fragment follows. */
  lemma {:induction false} SeparatorAbsent(gs: seq<Str>, r: Str, sep: Str)
    requires SafeSeparator(sep) && AllCuttable(gs)
    requires forall k :: 0 <= k < |gs| ==> !StartsWith(gs[k], sep)
    requires r == "" || r[0] == '-'
    ensures forall p :: 0 <= p < |Flatten(gs)| ==> !OccursAt(Flatten(gs) + r, sep, p)
    decreases |gs|
  {
    if |gs| > 0 {
      var g, tail := gs[0], gs[1..];
      var rr := Flatten(tail) + r;
      FlattenHead(gs);
      ConcatAssoc(g, Flatten(tail), r);
      CuttableAreLed(tail);
      StartsDash(tail, r);
      SeparatorAbsent(tail, r, sep);
      forall p | 0 <= p < |Flatten(gs)| ensures !OccursAt(g + rr, sep, p) {
        if p == 0 {
          SeparatorNotAtStart(g, rr, sep);
        } else if p < |g| {
          assert (g + rr)[p] == g[p];
          NotAtOther(g + rr, sep, p);
        } else {
          OccursPast(g, rr, sep, p);
        }
      }
    }
  }

  /** The text after some fragments is empty or starts a fragment. */
  lemma StartsDash(gs: seq<Str>, r: Str)
    requires AllLed(gs)
    requires r == "" || r[0] == '-'
    ensures var t := Flatten(gs) + r; t == "" || t[0] == '-'
  {
    if |gs| > 0 {
      FlattenHead(gs);
    }
  }

  /** When the text contains a safe separator, some fragment starts with it. */
  lemma SomeFragmentStarts(fs: seq<Str>, sep: Str)
    requires SafeSeparator(sep) && AllCuttable(fs)
    ensures Contains(Flatten(fs), sep) ==> FirstStarting(fs, sep) < |fs|
  {
    if FirstStarting(fs, sep) == |fs| {
      var s := Flatten(fs);
      SeparatorAbsent(fs, "", sep);
      assert s + "" == s;
      ContainsIff(s, sep);
    }
  }

  /** A fragment's start is a place in the whole text. */
  lemma StartContained(fs: seq<Str>, j: nat, w: Str)
    requires j < |fs|
    ensures StartsWith(fs[j], w) ==> Contains(Flatten(fs), w)
  {
    if StartsWith(fs[j], w) {
      var pre := Flatten(fs[..j]);
      Split3(fs, j);
      var s := Flatten(fs);
      assert s[|pre|..|pre| + |w|] == fs[j][..|w|];
      assert OccursAt(s, w, |pre|);
      ContainsIff(s, w);
    }
  }

  // ---------------------------------------------------------------------
  // One step: where the fragment is cut, and what is left
  // ---------------------------------------------------------------------

  /** The tokenizer cuts out exactly the first fragment starting with the
    * separator. */
  lemma CutClean(fs: seq<Str>, j: nat, i: nat)
    requires i < |Separators| && j < |fs| && AllCuttable(fs) && AllSeparated(fs)
    requires StartsWith(fs[j], Separators[i])
    requires forall k :: 0 <= k < j ==> !StartsWith(fs[k], Separators[i])
    ensures Contains(Flatten(fs), Separators[i])
    ensures CutFragment(Flatten(fs), Separators[i]) == fs[j]
  {
    SeparatorsSafe();
    StartContained(fs, j, Separators[i]);
    SeparatedTail(fs, j);
    FirstAt(fs, j, Separators[i]);
    CutBeforeClean(fs, j, Separators[i], Separators);
  }

  /** The fragments after the `j`th each start with a separator. */
  lemma SeparatedTail(fs: seq<Str>, j: nat)
    requires j < |fs| && AllSeparated(fs)
    ensures SeparatedBy(fs[j + 1..], Separators)
    ensures DashLed(Separators)
  {
    SeparatorsSafe();
    var t := fs[j + 1..];
    forall k | 0 <= k < |t|
      ensures StartsWithOneOf(t[k], Separators)
    {
      assert t[k] == fs[j + 1 + k];
      assert StartsWithSeparator(fs[j + 1 + k]);
      var m :| 0 <= m < |Separators| && StartsWith(fs[j + 1 + k], Separators[m]);
      assert StartsWith(t[k], Separators[m]);
    }
  }

  /** The cut for a separator first found where the `j`th fragment
    * starts, ending at the nearest of `seps`. */
  lemma {:induction false} CutBeforeClean(fs: seq<Str>, j: nat, sep: Str, seps: seq<Str>)
    requires j < |fs| && Led(fs[j]) && StartsWith(fs[j], sep) && |sep| >= 1
    requires DashLed(seps) && SeparatedBy(fs[j + 1..], seps)
    requires Contains(Flatten(fs), sep) && IndexOf(Flatten(fs), sep) == |Flatten(fs[..j])|
    ensures CutBefore(Flatten(fs), sep, seps) == fs[j]
  {
    Split3(fs, j);
    CutLaidOut(Flatten(fs[..j]), fs[j], fs[j + 1..], sep, seps);
  }

  /** The same cut, on the text before the fragment, the fragment, and the
    * fragments after it. */
  lemma {:induction false} CutLaidOut(pre: Str, f: Str, tail: seq<Str>, sep: Str, seps: seq<Str>)
    requires Led(f) && StartsWith(f, sep) && |sep| >= 1
    requires DashLed(seps) && SeparatedBy(tail, seps)
    requires var s := pre + (f + Flatten(tail)); Contains(s, sep) && IndexOf(s, sep) == |pre|
    ensures CutBefore(pre + (f + Flatten(tail)), sep, seps) == f
  {
    var s := pre + (f + Flatten(tail));
    EndOfFragment(pre, f, Flatten(tail), tail, |sep|, seps);
    CutBeforeIs(s, sep, seps);
    SliceMiddle(pre, f, Flatten(tail));
  }

  /** The cut is the slice from the separator's first occurrence to the
    * end of its fragment. */
  lemma {:induction false} CutBeforeIs(s: Str, sep: Str, seps: seq<Str>)
    requires Contains(s, sep)
    ensures var start := IndexOf(s, sep);
      start + |sep| <= |s|
      && var end := FragmentEnd(s, start + |sep|, seps);
      start <= end <= |s| && CutBefore(s, sep, seps) == s[start..end]
  {
  }


  /** The safe separator is first found where the `j`th fragment starts. */
  lemma {:induction false} FirstAt(fs: seq<Str>, j: nat, sep: Str)
    requires j < |fs| && AllCuttable(fs) && SafeSeparator(sep)
    requires StartsWith(fs[j], sep)
    requires forall k :: 0 <= k < j ==> !StartsWith(fs[k], sep)
    ensures IndexOf(Flatten(fs), sep) == |Flatten(fs[..j])|
  {
    var f := fs[j];
    var pre, post := Flatten(fs[..j]), Flatten(fs[j + 1..]);
    Split3(fs, j);
    var s := Flatten(fs);
    SeparatorAbsent(fs[..j], f + post, sep);
    assert OccursAt(s, sep, |pre|) by {
      assert s[|pre|..|pre| + |sep|] == f[..|sep|];
    }
  }

  /** From just past the separator, the nearest start of any of `seps` is
    * the end of the fragment: its inside holds no '-', and the next
    * fragment, if any, begins with one of them. */
  lemma {:induction false} EndOfFragment(pre: Str, f: Str, post: Str, tail: seq<Str>, n: nat, seps: seq<Str>)
    requires Led(f) && post == Flatten(tail)
    requires DashLed(seps) && SeparatedBy(tail, seps)
    requires 1 <= n <= |f|
    ensures var s := pre + (f + post);
      FragmentEnd(s, |pre| + n, seps) == |pre| + |f|
  {
    var s := pre + (f + post);
    var from := |pre| + n;
    forall k | 0 <= k < |seps|
      ensures IndexOfFrom(s, seps[k], from) == -1 || IndexOfFrom(s, seps[k], from) >= |pre| + |f|
    {
      forall p | from <= p < |pre| + |f| ensures s[p] != seps[k][0] {
        assert s[p] == f[p - |pre|];
      }
      NoneBetween(s, seps[k], from, |pre| + |f|);
    }
    if |tail| > 0 {
      var m :| 0 <= m < |seps| && StartsWith(tail[0], seps[m]);
      NextSeparator(pre, f, tail, seps[m]);
      var e := IndexOfFrom(s, seps[m], from);
      assert e >= 0;
    }
  }

  /** A following fragment that starts with `w` puts `w` right after the
    * text. */
  lemma {:induction false} NextSeparator(pre: Str, f: Str, tail: seq<Str>, w: Str)
    requires |tail| > 0 && StartsWith(tail[0], w)
    ensures OccursAt(pre + (f + Flatten(tail)), w, |pre| + |f|)
  {
    FlattenHead(tail);
    var s := pre + (f + Flatten(tail));
    assert s[|pre| + |f|..|pre| + |f| + |w|] == tail[0][..|w|];
  }

  /** A word whose first character is missing from `s[x..y]` is not found
    * before `y` when searching from `x`. */
  lemma NoneBetween(s: Str, w: Str, x: nat, y: nat)
    requires |w| > 0 && x <= y <= |s|
    requires forall p :: x <= p < y ==> s[p] != w[0]
    ensures IndexOfFrom(s, w, x) == -1 || IndexOfFrom(s, w, x) >= y
  {
    var r := IndexOfFrom(s, w, x);
    if r >= 0 {
      assert s[r..r + |w|][0] == s[r];
    }
  }

  /** Replacing the `j`th fragment's text removes exactly that fragment. */
  lemma ReplaceClean(fs: seq<Str>, j: nat)
    requires j < |fs| && AllLed(fs) && PrefixFree(fs)
    ensures ReplaceAll(Flatten(fs), fs[j], "") == Flatten(fs[..j] + fs[j + 1..])
  {
    Around(fs, j);
    Split3(fs, j);
    ReplaceText(fs[..j], fs[j], fs[j + 1..]);
    FlattenAppend(fs[..j], fs[j + 1..]);
  }

  /** The fragments around the `j`th are led and none starts with it. */
  lemma Around(fs: seq<Str>, j: nat)
    requires j < |fs| && AllLed(fs) && PrefixFree(fs)
    ensures Led(fs[j]) && AllLed(fs[..j]) && AllLed(fs[j + 1..])
    ensures Avoid(fs[..j], fs[j]) && Avoid(fs[j + 1..], fs[j])
  {
    var a, b := fs[..j], fs[j + 1..];
    forall k | 0 <= k < |b| ensures Led(b[k]) && !StartsWith(b[k], fs[j]) {
      assert b[k] == fs[j + 1 + k];
    }
  }

  /** Replacing `f` in the text of `a`, then `f`, then `b` leaves the text
    * of `a` and `b`. */
  lemma ReplaceText(a: seq<Str>, f: Str, b: seq<Str>)
    requires Led(f) && AllLed(a) && AllLed(b)
    requires Avoid(a, f) && Avoid(b, f)
    ensures ReplaceAll(Flatten(a) + (f + Flatten(b)), f, "") == Flatten(a) + Flatten(b)
  {
    var post := Flatten(b);
    ReplacePast(a, f + post, f);
    ReplaceAtMatch(post, f, "");
    ReplacePast(b, "", f);
    EmptyRight(post, "");
    EmptyLeft("", ReplaceAll(post, f, ""));
    assert ReplaceAll("", f, "") == "";
  }

  /** Fragments that do not start with `f` pass through its replacement. */
  lemma {:induction false} ReplacePast(gs: seq<Str>, r: Str, f: Str)
    requires Led(f) && AllLed(gs) && Avoid(gs, f)
    requires r == "" || r[0] == '-'
    ensures ReplaceAll(Flatten(gs) + r, f, "") == Flatten(gs) + ReplaceAll(r, f, "")
    decreases |gs|
  {
    if |gs| == 0 {
      assert Flatten(gs) + r == r;
    } else {
      var g, tail := gs[0], gs[1..];
      var rr := Flatten(tail) + r;
      FlattenHead(gs);
      ConcatAssoc(g, Flatten(tail), r);
      StartsDash(tail, r);
      ReplacePast(tail, r, f);
      ReplacePastOne(g, rr, f);
      ConcatAssoc(g, Flatten(tail), ReplaceAll(r, f, ""));
    }
  }

  /** One fragment that does not start with `f` passes through. */
  lemma {:induction false} ReplacePastOne(g: Str, r: Str, f: Str)
    requires Led(f) && Led(g) && !StartsWith(g, f)
    requires r == "" || r[0] == '-'
    ensures ReplaceAll(g + r, f, "") == g + ReplaceAll(r, f, "")
  {
    NotStartAt(g, r, f);
    ReplaceStep(g + r, f, "");
    assert (g + r)[1..] == g[1..] + r;
    assert f[0] !in g[1..];
    ReplacePassThrough(g[1..], r, f, "");
    assert g == [g[0]] + g[1..];
  }

  /** A led word that `g` does not start with does not start `g`
    * followed by a new fragment either. */
  lemma NotStartAt(g: Str, r: Str, f: Str)
    requires Led(g) && Led(f) && !StartsWith(g, f)
    requires r == "" || r[0] == '-'
    ensures !StartsWith(g + r, f)
  {
    if |f| <= |g| {
      assert (g + r)[..|f|] == g[..|f|];
    } else if |f| <= |g + r| {
      assert (g + r)[..|f|][|g|] == r[0];
    }
  }

  // ---------------------------------------------------------------------
  // Text of fragment lists
  // ---------------------------------------------------------------------

  lemma FlattenCons(g: Str, gs: seq<Str>)
    ensures Flatten([g] + gs) == g + Flatten(gs)
  {
    FlattenAppend([g], gs);
    assert Flatten([g]) == Flatten([]) + g;
  }

  lemma {:induction false} FlattenAppend(a: seq<Str>, b: seq<Str>)
    ensures Flatten(a + b) == Flatten(a) + Flatten(b)
    decreases |b|
  {
    if |b| == 0 {
      EmptyRight(a, b);
    } else {
      var n := |b| - 1;
      FlattenAppend(a, b[..n]);
      AllButLast(a, b);
    }
  }

  lemma FlattenHead(gs: seq<Str>)
    requires |gs| > 0
    ensures Flatten(gs) == gs[0] + Flatten(gs[1..])
  {
    HeadTail(gs);
    FlattenCons(gs[0], gs[1..]);
  }

  /** The text before, of, and after the `j`th fragment. */
  lemma Split3(fs: seq<Str>, j: nat)
    requires j < |fs|
    ensures Flatten(fs) == Flatten(fs[..j]) + (fs[j] + Flatten(fs[j + 1..]))
  {
    SplitAt(fs, j);
    FlattenAppend(fs[..j], [fs[j]] + fs[j + 1..]);
    FlattenCons(fs[j], fs[j + 1..]);
  }

  lemma {:induction false} NoSpaces(fs: seq<Str>)
    requires CleanFragments(fs)
    ensures ' ' !in Flatten(fs)
    decreases |fs|
  {
    if |fs| > 0 {
      var n := |fs| - 1;
      NoSpaces(fs[..n]);
      assert ' ' !in fs[n] by { assert IsWhitespace(' '); }
    }
  }

  /** Clean text starts with '-' and ends with a fragment's last character,
    * so trimming leaves it as it is. */
  lemma {:induction false} CleanTrimmed(fs: seq<Str>)
    requires CleanFragments(fs)
    ensures Trim(Flatten(fs)) == Flatten(fs)
  {
    var s := Flatten(fs);
    if |fs| > 0 {
      var n := |fs| - 1;
      var last := fs[n];
      CleanAreCuttable(fs);
      StartsDash(fs, "");
      assert s + "" == s;
      assert s == Flatten(fs[..n]) + last;
      assert s[|s| - 1] == last[|last| - 1];
      assert !IsWhitespace(s[0]) by { assert s[0] == '-'; }
      TrimTrimmed(s);
    } else {
      assert LeadingSpace(s) == |s|;
    }
  }

  // ---------------------------------------------------------------------
  // The reference grouping
  // ---------------------------------------------------------------------

  /** A fragment that starts with a separator has a rank below their
    * number. */
  lemma CleanRanked(f: Str)
    requires CleanFragment(f)
    ensures Rank(f) < |Separators|
  {
    var m :| 0 <= m < |Separators| && StartsWith(f, Separators[m]);
  }

  // ---------------------------------------------------------------------
  // The example's literals
  // ---------------------------------------------------------------------

  lemma CleanXmx()
    ensures CleanFragment("-Xmx1G")
  {
    var f := "-Xmx1G";
    Plain(f);
    assert StartsWith(f, Separators[5]);
    assert '=' !in f;
  }

  lemma CleanDfoo()
    ensures CleanFragment("-Dfoo=1")
  {
    var f := "-Dfoo=1";
    Plain(f);
    assert StartsWith(f, Separators[4]);
    assert f[5] == '=' && forall k :: 0 <= k < |f| && f[k] == '=' ==> k == 5;
  }

  /** The example's fragments are printable ASCII other than ',' and hold
    * '-' only at the start. */
  lemma Plain(f: Str)
    requires f == "-Xmx1G" || f == "-Dfoo=1"
    ensures Cuttable(f) && forall k :: 0 <= k < |f| ==> f[k] != ',' && !IsWhitespace(f[k])
  {
    forall k | 0 <= k < |f| ensures '0' <= f[k] <= 'z' || f[k] == '-' || f[k] == '=' {
    }
  }

  lemma RankXmx()
    ensures Rank("-Xmx1G") == 5
  {
    var f := "-Xmx1G";
    assert f[..2] == Separators[5];
    NotStart(f, Separators[4], 1);
    NotStart(f, Separators[3], 1);
    NotStart(f, Separators[2], 2);
    NotStart(f, Separators[1], 2);
    NotStart(f, Separators[0], 2);
    assert RankFrom(f, 5) == 5;
    assert RankFrom(f, 4) == 5;
    assert RankFrom(f, 3) == 5;
    assert RankFrom(f, 2) == 5;
    assert RankFrom(f, 1) == 5;
  }

  lemma RankDfoo()
    ensures Rank("-Dfoo=1") == 4
  {
    var f := "-Dfoo=1";
    assert f[..2] == Separators[4];
    NotStart(f, Separators[3], 1);
    NotStart(f, Separators[2], 1);
    NotStart(f, Separators[1], 1);
    NotStart(f, Separators[0], 1);
    assert RankFrom(f, 4) == 4;
    assert RankFrom(f, 3) == 4;
    assert RankFrom(f, 2) == 4;
    assert RankFrom(f, 1) == 4;
  }

  /** Text that differs from `w` at position `p` does not start with it. */
  lemma NotStart(f: Str, w: Str, p: nat)
    requires p < |w| && (p < |f| ==> f[p] != w[p])
    ensures !StartsWith(f, w)
  {
    if |w| <= |f| {
      assert f[..|w|][p] == f[p];
    }
  }
}

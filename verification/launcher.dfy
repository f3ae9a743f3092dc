/** The JVM arguments of a launch: the tokenizer for the user's argument
  * string, the defaults a user argument overrides, the arguments the
  * launcher always replaces, and the final argument vector. */
module Launcher {
  import opened Wrappers
  import opened KotlinText
  import opened Sequences

  // ---------------------------------------------------------------------
  // Sequences of arguments
  // ---------------------------------------------------------------------

  /** All the arguments' characters, in order. */
  function Flatten(xs: seq<Str>): Str
  {
    if |xs| == 0 then "" else Flatten(xs[..|xs| - 1]) + xs[|xs| - 1]
  }

  lemma FlattenSnoc(xs: seq<Str>, x: Str)
    ensures Flatten(xs + [x]) == Flatten(xs) + x
  {
    assert (xs + [x])[..|xs|] == xs;
  }

  /** How many arguments start with `p`. */
  function CountPrefixed(args: seq<Str>, p: Str): nat
  {
    if |args| == 0 then 0
    else CountPrefixed(args[..|args| - 1], p) + (if StartsWith(args[|args| - 1], p) then 1 else 0)
  }

  lemma CountSnoc(args: seq<Str>, x: Str, p: Str)
    ensures CountPrefixed(args + [x], p) == CountPrefixed(args, p) + (if StartsWith(x, p) then 1 else 0)
  {
    assert (args + [x])[..|args|] == args;
  }

  lemma {:induction false} CountNone(args: seq<Str>, p: Str)
    requires forall i :: 0 <= i < |args| ==> !StartsWith(args[i], p)
    ensures CountPrefixed(args, p) == 0
    decreases |args|
  {
    if |args| > 0 {
      CountNone(args[..|args| - 1], p);
    }
  }

  // ---------------------------------------------------------------------
  // The user-argument tokenizer
  // ---------------------------------------------------------------------

  /** The argument starts the tokenizer looks for, in the order it looks. */
  const Separators: seq<Str> := ["-XX:-", "-XX:+", "-XX:", "--", "-D", "-X", "-javaagent:", "-verbose"]

  lemma SeparatorNonEmpty(i: nat)
    requires i < |Separators|
    ensures |Separators[i]| > 0
  {
  }

  predicate StartsWithSeparator(a: Str)
  {
    exists k :: 0 <= k < |Separators| && StartsWith(a, Separators[k])
  }

  /** Where a fragment found at `start` ends: the nearest later start of
    * any separator, searching from `from`, or the end of the text. */
  function FragmentEnd(s: Str, from: nat, seps: seq<Str>): (e: nat)
    requires from <= |s|
    ensures from <= e <= |s|
    ensures forall k :: 0 <= k < |seps| && IndexOfFrom(s, seps[k], from) >= 0 ==>
      e <= IndexOfFrom(s, seps[k], from)
    ensures e == |s| || exists k :: 0 <= k < |seps| && IndexOfFrom(s, seps[k], from) == e
  {
    NearestIsFirst(s, from, seps);
    Nearest(s, from, seps)
  }

  /** The minimum behind `FragmentEnd`, one separator at a time. */
  function Nearest(s: Str, from: nat, seps: seq<Str>): (e: nat)
    requires from <= |s|
    ensures from <= e <= |s|
  {
    if |seps| == 0 then |s|
    else
      var rest := Nearest(s, from, seps[1..]);
      var i := IndexOfFrom(s, seps[0], from);
      if i >= 0 && i < rest then i else rest
  }

  /** The minimum is at or before every separator's next start, and is
    * one of them unless it is the end of the text. */
  lemma {:induction false} NearestIsFirst(s: Str, from: nat, seps: seq<Str>)
    requires from <= |s|
    ensures var e := Nearest(s, from, seps);
      (forall k :: 0 <= k < |seps| && IndexOfFrom(s, seps[k], from) >= 0 ==>
        e <= IndexOfFrom(s, seps[k], from))
      && (e == |s| || exists k :: 0 <= k < |seps| && IndexOfFrom(s, seps[k], from) == e)
  {
    if |seps| > 0 {
      NearestIsFirst(s, from, seps[1..]);
      assert forall k :: 1 <= k < |seps| ==> seps[k] == seps[1..][k - 1];
    }
  }

  /** A fragment with two or more '=' is dropped as malformed. */
  predicate Accepted(frag: Str)
  {
    IndexOfChar(frag, '=') == LastIndexOfChar(frag, '=')
  }

  /** An accepted fragment is glued to the previous argument when that one
    * ends with ',' or the fragment itself holds a ','. */
  predicate Joins(parsed: seq<Str>, frag: Str)
  {
    |parsed| > 0 && (EndsWith(parsed[|parsed| - 1], ",") || ',' in frag)
  }

  predicate WellParsed(args: seq<Str>)
  {
    forall j :: 0 <= j < |args| ==> ' ' !in args[j] && StartsWithSeparator(args[j])
  }

  /** Records one fragment. No text is lost or reordered: the arguments
    * spell what they spelled before followed by the fragment, if it is
    * accepted. */
  function AddFragment(parsed: seq<Str>, frag: Str): (r: seq<Str>)
    ensures Flatten(r) == Flatten(parsed) + (if Accepted(frag) then frag else "")
    ensures |r| == |parsed| + (if Accepted(frag) && !Joins(parsed, frag) then 1 else 0)
    ensures forall j :: 0 <= j < |parsed| - 1 ==> r[j] == parsed[j]
    ensures !Accepted(frag) ==> r == parsed
    ensures Accepted(frag) && Joins(parsed, frag) ==> r[|r| - 1] == parsed[|parsed| - 1] + frag
    ensures Accepted(frag) && !Joins(parsed, frag) ==> r == parsed + [frag]
    ensures WellParsed(parsed) && ' ' !in frag && StartsWithSeparator(frag) ==> WellParsed(r)
  {
    if !Accepted(frag) then parsed
    else if Joins(parsed, frag) then
      var n := |parsed| - 1;
      var last := parsed[n];
      assert parsed == parsed[..n] + [last];
      FlattenSnoc(parsed[..n], last);
      FlattenSnoc(parsed[..n], last + frag);
      JoinKeepsSeparator(last, frag);
      parsed[..n] + [last + frag]
    else
      FlattenSnoc(parsed, frag);
      parsed + [frag]
  }

  lemma JoinKeepsSeparator(last: Str, frag: Str)
    ensures StartsWithSeparator(last) ==> StartsWithSeparator(last + frag)
  {
    if StartsWithSeparator(last) {
      var k :| 0 <= k < |Separators| && StartsWith(last, Separators[k]);
      assert (last + frag)[..|Separators[k]|] == last[..|Separators[k]|];
    }
  }

  /** The fragment the tokenizer cuts out for the separator `prefix`. */
  function CutFragment(s: Str, prefix: Str): (frag: Str)
    requires Contains(s, prefix)
    ensures StartsWith(frag, prefix)
    ensures |frag| >= |prefix|
    ensures Contains(s, frag)
  {
    CutBefore(s, prefix, Separators)
  }

  /** From the first occurrence of `prefix` up to the nearest later start
    * of any of `seps`. */
  function CutBefore(s: Str, prefix: Str, seps: seq<Str>): (frag: Str)
    requires Contains(s, prefix)
    ensures StartsWith(frag, prefix)
    ensures |frag| >= |prefix|
    ensures Contains(s, frag)
  {
    var start := IndexOf(s, prefix);
    var end := FragmentEnd(s, start + |prefix|, seps);
    CutAt(s, prefix, start, end);
    s[start..end]
  }

  /** A slice that begins with an occurrence of `prefix` starts with it and
    * occurs in the text. */
  lemma CutAt(s: Str, prefix: Str, start: int, end: int)
    requires 0 <= start && start + |prefix| <= end <= |s|
    requires s[start..start + |prefix|] == prefix
    ensures StartsWith(s[start..end], prefix)
    ensures Contains(s, s[start..end])
  {
    assert s[start..end][..|prefix|] == s[start..start + |prefix|];
    assert OccursAt(s, s[start..end], start);
    ContainsIff(s, s[start..end]);
  }

  /** Each step removes a non-empty fragment from the remaining text, so
    * the tokenizer ends. */
  lemma StepShrinks(s: Str, prefix: Str)
    requires |prefix| > 0 && Contains(s, prefix)
    ensures |ReplaceAll(s, CutFragment(s, prefix), "")| + |prefix| <= |s|
  {
    DeleteShrinks(s, CutFragment(s, prefix));
  }

  /** Extracts the fragments for the separators from index `i` on: for each
    * separator in turn, as long as the text still contains it. */
  function ParseFrom(s: Str, i: nat, parsed: seq<Str>): (r: seq<Str>)
    requires i <= |Separators|
    requires ' ' !in s && WellParsed(parsed)
    ensures WellParsed(r)
    ensures |Flatten(r)| <= |Flatten(parsed)| + |s|
    decreases |Separators| - i, |s|
  {
    if i == |Separators| then parsed
    else if !Contains(s, Separators[i]) then ParseFrom(s, i + 1, parsed)
    else
      var sep := Separators[i];
      SeparatorNonEmpty(i);
      var frag := CutFragment(s, sep);
      var rest := ReplaceAll(s, frag, "");
      ParseStep(s, sep, parsed);
      ParseFrom(rest, i, AddFragment(parsed, frag))
  }

  /** One step of the tokenizer: the rest is shorter and space-free, the
    * arguments stay well formed, and no text is gained. */
  lemma ParseStep(s: Str, sep: Str, parsed: seq<Str>)
    requires sep in Separators && |sep| > 0 && Contains(s, sep)
    requires ' ' !in s && WellParsed(parsed)
    ensures var frag := CutFragment(s, sep);
      var rest := ReplaceAll(s, frag, "");
      |rest| + |sep| <= |s| && ' ' !in rest && WellParsed(AddFragment(parsed, frag))
      && |Flatten(AddFragment(parsed, frag))| + |rest| <= |Flatten(parsed)| + |s|
  {
    var frag := CutFragment(s, sep);
    StepShrinks(s, sep);
    DeleteShrinks(s, frag);
    assert StartsWithSeparator(frag) by {
      var k :| 0 <= k < |Separators| && Separators[k] == sep;
    }
    assert ' ' !in frag by { assert forall x :: x in frag ==> x in s; }
  }

  /** The user's JVM argument string, trimmed, with every space removed,
    * cut into arguments at the separators. */
  function ParseJavaArguments(args: Str): (r: seq<Str>)
    ensures WellParsed(r)
    ensures |Flatten(r)| <= |args|
  {
    ReplaceCharRemoves(Trim(args), ' ');
    ReplaceLength(Trim(args), " ", "");
    ParseFrom(ReplaceAll(Trim(args), " ", ""), 0, [])
  }

  /** The tokenizer's test for a malformed fragment is "two '=' or more":
    * the first and the last '=' coincide exactly when there is at most one. */
  lemma AcceptedIffOneEquals(frag: Str)
    ensures Accepted(frag) <==>
      forall i, j :: 0 <= i < j < |frag| && frag[i] == '=' ==> frag[j] != '='
  {
    var a := IndexOfChar(frag, '=');
    var b := LastIndexOfChar(frag, '=');
    if !Accepted(frag) {
      assert 0 <= a < b;
      assert frag[a] == '=' && frag[b] == '=';
    } else if a >= 0 {
      forall i, j | 0 <= i < j < |frag| && frag[i] == '=' ensures frag[j] != '=' {
        assert j > b ==> frag[b + 1..][j - b - 1] == frag[j];
      }
    }
  }

  // ---------------------------------------------------------------------
  // Defaults a user argument overrides
  // ---------------------------------------------------------------------

  /** What the launcher's default arguments are built from; the window size
    * is already scaled. */
  datatype LaunchEnv = LaunchEnv(
    runtimeHome: Str,
    cacheDir: Str,
    nativeLibDir: Str,
    gamePath: Str,
    userLanguage: Str,
    androidRelease: Str,
    gameHome: Str,
    accountDir: Str,
    timeZone: Str,
    windowWidth: int,
    windowHeight: int,
    resolvFile: Str,
    launcherName: Str,
    mioLibPatcher: Str,
    processors: int)

  function OverridableArguments(env: LaunchEnv): seq<Str>
  {
    [ "-Djava.home=" + env.runtimeHome,
      "-Djava.io.tmpdir=" + env.cacheDir,
      "-Djna.boot.library.path=" + env.nativeLibDir,
      "-Duser.home=" + env.gamePath,
      "-Duser.language=" + env.userLanguage,
      "-Dos.name=Linux",
      "-Dos.version=Android-" + env.androidRelease,
      "-Dpojav.path.minecraft=" + env.gameHome,
      "-Dpojav.path.private.account=" + env.accountDir,
      "-Duser.timezone=" + env.timeZone,
      "-Dorg.lwjgl.vulkan.libname=libvulkan.so",
      "-Dglfwstub.windowWidth=" + IntToString(env.windowWidth),
      "-Dglfwstub.windowHeight=" + IntToString(env.windowHeight),
      "-Dglfwstub.initEgl=false",
      "-Dext.net.resolvPath=" + env.resolvFile,
      "-Dlog4j2.formatMsgNoLookups=true",
      "-Dnet.minecraft.clientmodname=" + env.launcherName,
      "-Dfml.earlyprogresswindow=false",
      "-Dloader.disable_forked_guis=true",
      "-Djdk.lang.Process.launchMechanism=FORK",
      "-Dsodium.checks.issue2561=false" ]
  }

  /** A default is overridden when its text before '=' starts some user
    * argument. */
  predicate Overridden(d: Str, user: seq<Str>)
  {
    exists u :: u in user && StartsWith(u, SubstringBefore(d, '='))
  }

  function KeepNotOverridden(defaults: seq<Str>, user: seq<Str>): (r: seq<Str>)
    ensures forall d :: d in r <==> d in defaults && !Overridden(d, user)
    ensures IsSubsequence(r, defaults)
  {
    if |defaults| == 0 then []
    else
      var rest := KeepNotOverridden(defaults[1..], user);
      if Overridden(defaults[0], user) then
        SkipHead(rest, defaults);
        rest
      else
        assert ([defaults[0]] + rest)[1..] == rest;
        [defaults[0]] + rest
  }


  /** The user's arguments first, in their order, then every default that
    * none of them overrides, in the defaults' order. */
  function GetJavaArgs(env: LaunchEnv, userArgs: Str): seq<Str>
  {
    UserThenDefaults(ParseJavaArguments(userArgs), OverridableArguments(env))
  }

  /** The user's arguments, then the defaults none of them overrides. */
  function UserThenDefaults(user: seq<Str>, defaults: seq<Str>): (r: seq<Str>)
    ensures |r| >= |user| && r[..|user|] == user
      && IsSubsequence(r[|user|..], defaults)
      && forall d :: d in r[|user|..] <==> d in defaults && !Overridden(d, user)
  {
    var extra := KeepNotOverridden(defaults, user);
    assert (user + extra)[..|user|] == user && (user + extra)[|user|..] == extra;
    user + extra
  }

  // ---------------------------------------------------------------------
  // Arguments the launcher replaces
  // ---------------------------------------------------------------------

  /** Every argument starting with `p` is removed; the rest keep their order. */
  function PurgeArg(args: seq<Str>, p: Str): (r: seq<Str>)
    ensures forall a :: a in r <==> a in args && !StartsWith(a, p)
    ensures IsSubsequence(r, args)
    ensures CountPrefixed(r, p) == 0
    ensures r == KeepFree(args, [p])
  {
    KeepFreeOne(args, p);
    if |args| == 0 then []
    else
      var rest := PurgeArg(args[1..], p);
      FreeOfOne(args[0], p);
      if StartsWith(args[0], p) then rest
      else [args[0]] + rest
  }

  /** Keeping the arguments free of the one prefix `p` removes exactly
    * those starting with it, keeps the order, and leaves none with `p`. */
  lemma {:induction false} KeepFreeOne(args: seq<Str>, p: Str)
    ensures var r := KeepFree(args, [p]);
      (forall a :: a in r <==> a in args && !StartsWith(a, p))
      && IsSubsequence(r, args) && CountPrefixed(r, p) == 0
    decreases |args|
  {
    var r := KeepFree(args, [p]);
    if |args| == 0 {
      CountNone(r, p);
    } else {
      var rest := KeepFree(args[1..], [p]);
      KeepFreeOne(args[1..], p);
      FreeOfOne(args[0], p);
      if StartsWith(args[0], p) {
        assert r == rest;
        SkipHead(rest, args);
      } else {
        assert r == [args[0]] + rest;
        assert r[1..] == rest;
        CountNone(r, p);
      }
    }
  }

  /** The arguments free of every prefix of `ps`, in their order and with
    * their repetitions: the filter the removals amount to. */
  function KeepFree(args: seq<Str>, ps: seq<Str>): seq<Str>
  {
    if |args| == 0 then []
    else (if FreeOfPrefixes(args[0], ps) then [args[0]] else []) + KeepFree(args[1..], ps)
  }

  lemma FreeOfOne(a: Str, p: Str)
    ensures FreeOfPrefixes(a, [p]) <==> !StartsWith(a, p)
  {
    assert [p][0] == p;
  }

  lemma FreeOfCons(a: Str, ps: seq<Str>)
    requires |ps| > 0
    ensures FreeOfPrefixes(a, ps) <==> !StartsWith(a, ps[0]) && FreeOfPrefixes(a, ps[1..])
  {
    assert forall k :: 1 <= k < |ps| ==> ps[k] == ps[1..][k - 1];
    if !StartsWith(a, ps[0]) && FreeOfPrefixes(a, ps[1..]) {
      forall k | 0 <= k < |ps| ensures !StartsWith(a, ps[k]) {
        if k > 0 { assert ps[k] == ps[1..][k - 1]; }
      }
    }
  }

  /** Filtering by one prefix and then by the rest is filtering by all. */
  lemma {:induction false} KeepFreeTwice(args: seq<Str>, ps: seq<Str>)
    requires |ps| > 0
    ensures KeepFree(KeepFree(args, [ps[0]]), ps[1..]) == KeepFree(args, ps)
    decreases |args|
  {
    if |args| > 0 {
      var a := args[0];
      KeepFreeTwice(args[1..], ps);
      FreeOfOne(a, ps[0]);
      FreeOfCons(a, ps);
      var inner := KeepFree(args[1..], [ps[0]]);
      if FreeOfPrefixes(a, [ps[0]]) {
        assert KeepFree(args, [ps[0]]) == [a] + inner;
        assert ([a] + inner)[1..] == inner;
      } else {
        assert KeepFree(args, [ps[0]]) == inner;
      }
    }
  }

  /** The prefixes removed from the arguments, in the order they are removed. */
  const PurgedPrefixes: seq<Str> := [
    "-Xms", "-Xmx", "-d32", "-d64", "-Xint",
    "-XX:+UseTransparentHugePages", "-XX:+UseLargePagesInMetaspace", "-XX:+UseLargePages",
    "-Dorg.lwjgl.opengl.libname", "-Dorg.lwjgl.freetype.libname", "-XX:ActiveProcessorCount"]

  /** `a` starts with none of the prefixes `ps`. */
  predicate FreeOfPrefixes(a: Str, ps: seq<Str>)
  {
    forall k :: 0 <= k < |ps| ==> !StartsWith(a, ps[k])
  }

  /** Each prefix of `ps` in turn is purged; what remains is exactly the
    * filter `KeepFree`, so order and repeated arguments are kept. */
  function PurgeAll(args: seq<Str>, ps: seq<Str>): (r: seq<Str>)
    ensures forall a :: a in r <==> a in args && FreeOfPrefixes(a, ps)
    ensures r == KeepFree(args, ps)
    decreases |ps|
  {
    if |ps| == 0 then
      KeepFreeOfNone(args, ps);
      args
    else
      var r := PurgeAll(PurgeArg(args, ps[0]), ps[1..]);
      assert forall k :: 1 <= k < |ps| ==> ps[k] == ps[1..][k - 1];
      KeepFreeTwice(args, ps);
      r
  }

  lemma {:induction false} KeepFreeOfNone(args: seq<Str>, ps: seq<Str>)
    requires |ps| == 0
    ensures KeepFree(args, ps) == args
    decreases |args|
  {
    if |args| > 0 {
      KeepFreeOfNone(args[1..], ps);
      assert args == [args[0]] + args[1..];
    }
  }

  /** The five arguments the launcher appends. */
  function LauncherArguments(env: LaunchEnv): seq<Str>
  {
    [ "-javaagent:" + env.mioLibPatcher,
      "-Xms1024M",
      "-Xmx1024M",
      "-Dorg.lwjgl.freetype.libname=" + env.nativeLibDir + "/libfreetype.so",
      "-XX:ActiveProcessorCount=" + IntToString(env.processors) ]
  }

  /** Removes the arguments the launcher controls and appends its own. */
  function ProgressFinalUserArgs(args: seq<Str>, env: LaunchEnv): (r: seq<Str>)
    ensures |r| >= 5 && r[|r| - 5..] == LauncherArguments(env)
    ensures r[..|r| - 5] == KeepFree(args, PurgedPrefixes)
    ensures forall a :: a in r[..|r| - 5] <==>
      a in args && FreeOfPrefixes(a, PurgedPrefixes)
  {
    PurgeThenAppend(args, PurgedPrefixes, LauncherArguments(env))
  }

  /** The arguments free of every prefix of `ps`, then `extra`. */
  function PurgeThenAppend(args: seq<Str>, ps: seq<Str>, extra: seq<Str>): (r: seq<Str>)
    ensures |r| >= |extra| && r[|r| - |extra|..] == extra
    ensures forall a :: a in r[..|r| - |extra|] <==>
      a in args && FreeOfPrefixes(a, ps)
    ensures r[..|r| - |extra|] == KeepFree(args, ps)
  {
    var kept := PurgeAll(args, ps);
    assert (kept + extra)[..|kept|] == kept;
    kept + extra
  }

  /** After the replacement exactly one `-Xms` and one `-Xmx` remain. */
  lemma OneHeapSetting(args: seq<Str>, env: LaunchEnv)
    ensures CountPrefixed(ProgressFinalUserArgs(args, env), "-Xms") == 1
    ensures CountPrefixed(ProgressFinalUserArgs(args, env), "-Xmx") == 1
  {
    var r := ProgressFinalUserArgs(args, env);
    var kept := r[..|r| - 5];
    var l := LauncherArguments(env);
    HeapPrefixesPurged();
    KeptFree(args, env, 0);
    KeptFree(args, env, 1);
    assert r == kept + l;
    CountAppend(kept, l, "-Xms");
    CountAppend(kept, l, "-Xmx");
    LauncherHeapCount(env);
  }

  lemma HeapPrefixesPurged()
    ensures PurgedPrefixes[0] == "-Xms" && PurgedPrefixes[1] == "-Xmx"
  {
  }

  /** No kept user argument starts with a purged prefix. */
  lemma KeptFree(args: seq<Str>, env: LaunchEnv, k: nat)
    requires k < |PurgedPrefixes|
    ensures var r := ProgressFinalUserArgs(args, env);
      CountPrefixed(r[..|r| - 5], PurgedPrefixes[k]) == 0
  {
    var r := ProgressFinalUserArgs(args, env);
    NoneWithPrefix(r[..|r| - 5], args, PurgedPrefixes, k);
  }

  /** A list holding only arguments free of every prefix of `ps` has no
    * argument with any one of them. */
  lemma NoneWithPrefix(kept: seq<Str>, args: seq<Str>, ps: seq<Str>, k: nat)
    requires k < |ps|
    requires forall a :: a in kept <==> a in args && forall j :: 0 <= j < |ps| ==> !StartsWith(a, ps[j])
    ensures CountPrefixed(kept, ps[k]) == 0
  {
    forall i | 0 <= i < |kept| ensures !StartsWith(kept[i], ps[k]) {
      assert kept[i] in kept;
    }
    CountNone(kept, ps[k]);
  }

  lemma {:induction false} CountAppend(xs: seq<Str>, ys: seq<Str>, p: Str)
    ensures CountPrefixed(xs + ys, p) == CountPrefixed(xs, p) + CountPrefixed(ys, p)
    decreases |ys|
  {
    if |ys| > 0 {
      var n := |ys| - 1;
      CountAppend(xs, ys[..n], p);
      assert (xs + ys)[..|xs| + n] == xs + ys[..n];
    } else {
      assert xs + ys == xs;
    }
  }

  lemma LauncherHeapCount(env: LaunchEnv)
    ensures CountPrefixed(LauncherArguments(env), "-Xms") == 1
    ensures CountPrefixed(LauncherArguments(env), "-Xmx") == 1
  {
    var l := LauncherArguments(env);
    HeapPrefixes(env);
    assert l == [l[0]] + [l[1]] + [l[2]] + [l[3]] + [l[4]];
    CountSnoc([], l[0], "-Xms");
    CountSnoc([l[0]], l[1], "-Xms");
    CountSnoc([l[0]] + [l[1]], l[2], "-Xms");
    CountSnoc([l[0]] + [l[1]] + [l[2]], l[3], "-Xms");
    CountSnoc([l[0]] + [l[1]] + [l[2]] + [l[3]], l[4], "-Xms");
    CountSnoc([], l[0], "-Xmx");
    CountSnoc([l[0]], l[1], "-Xmx");
    CountSnoc([l[0]] + [l[1]], l[2], "-Xmx");
    CountSnoc([l[0]] + [l[1]] + [l[2]], l[3], "-Xmx");
    CountSnoc([l[0]] + [l[1]] + [l[2]] + [l[3]], l[4], "-Xmx");
  }

  /** Which of the appended arguments set the heap. */
  lemma HeapPrefixes(env: LaunchEnv)
    ensures var l := LauncherArguments(env);
      !StartsWith(l[0], "-Xms") && StartsWith(l[1], "-Xms") && !StartsWith(l[2], "-Xms")
      && !StartsWith(l[3], "-Xms") && !StartsWith(l[4], "-Xms")
      && !StartsWith(l[0], "-Xmx") && !StartsWith(l[1], "-Xmx") && StartsWith(l[2], "-Xmx")
      && !StartsWith(l[3], "-Xmx") && !StartsWith(l[4], "-Xmx")
  {
    AgentNotHeap(env.mioLibPatcher);
    HeapLiterals();
    FreetypeNotHeap(env.nativeLibDir);
    ProcessorsNotHeap(IntToString(env.processors));
  }

  lemma AgentNotHeap(path: Str)
    ensures var a := "-javaagent:" + path; !StartsWith(a, "-Xms") && !StartsWith(a, "-Xmx")
  {
    NotHeapAt("-javaagent:" + path, 1);
  }

  lemma FreetypeNotHeap(dir: Str)
    ensures var a := "-Dorg.lwjgl.freetype.libname=" + dir + "/libfreetype.so";
      !StartsWith(a, "-Xms") && !StartsWith(a, "-Xmx")
  {
    NotHeapAt("-Dorg.lwjgl.freetype.libname=" + dir + "/libfreetype.so", 1);
  }

  lemma ProcessorsNotHeap(n: Str)
    ensures var a := "-XX:ActiveProcessorCount=" + n; !StartsWith(a, "-Xms") && !StartsWith(a, "-Xmx")
  {
    NotHeapAt("-XX:ActiveProcessorCount=" + n, 2);
  }

  /** An argument that differs from "-Xm" at position `k` sets no heap size. */
  lemma NotHeapAt(a: Str, k: nat)
    requires k < 3 && k < |a| && a[k] != "-Xm"[k]
    ensures !StartsWith(a, "-Xms") && !StartsWith(a, "-Xmx")
  {
    if |a| >= 4 {
      assert a[..4][k] == a[k];
    }
  }

  lemma HeapLiterals()
    ensures StartsWith("-Xms1024M", "-Xms") && !StartsWith("-Xms1024M", "-Xmx")
    ensures StartsWith("-Xmx1024M", "-Xmx") && !StartsWith("-Xmx1024M", "-Xms")
  {
    assert "-Xms1024M"[..4] == "-Xms" && "-Xmx1024M"[..4] == "-Xmx";
  }

  /** The argument vector handed to the JVM: "java" as argv[0], the Java
    * arguments (as `GetJavaArgs` builds them) with the controlled ones
    * removed, the launcher's five, then the game's JVM arguments. */
  function LaunchArgv(env: LaunchEnv, javaArgs: seq<Str>, jvmArgs: seq<Str>): (r: seq<Str>)
    ensures |r| >= 6 + |jvmArgs| && r[0] == "java"
    ensures r[|r| - |jvmArgs|..] == jvmArgs
    ensures r[|r| - |jvmArgs| - 5..|r| - |jvmArgs|] == LauncherArguments(env)
    ensures forall a :: a in r[1..|r| - |jvmArgs| - 5] <==> a in javaArgs && FreeOfPrefixes(a, PurgedPrefixes)
    ensures r[1..|r| - |jvmArgs| - 5] == KeepFree(javaArgs, PurgedPrefixes)
  {
    var mid := ProgressFinalUserArgs(javaArgs, env);
    ArgvMiddle(mid, jvmArgs, 5);
    Argv(mid, jvmArgs)
  }

  /** "java", then `mid`, then the JVM arguments. */
  function Argv(mid: seq<Str>, jvm: seq<Str>): (r: seq<Str>)
    ensures |r| == 1 + |mid| + |jvm| && r[0] == "java" && r[|r| - |jvm|..] == jvm
    ensures r[1..|r| - |jvm|] == mid
  {
    ["java"] + mid + jvm
  }

  lemma ArgvMiddle(mid: seq<Str>, jvm: seq<Str>, k: nat)
    requires k <= |mid|
    ensures var r := Argv(mid, jvm);
      r[|r| - |jvm| - k..|r| - |jvm|] == mid[|mid| - k..]
      && r[1..|r| - |jvm| - k] == mid[..|mid| - k]
  {
  }
}

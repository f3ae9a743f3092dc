/** The game's `options.txt`: one `key:value` per line, list values written
  * as `["a", "b"]`, and the GUI scale the launcher derives from it. */
module MCOptions {
  import opened Wrappers
  import opened KotlinText
  import opened StringUtils

  type Options = map<Str, Str>

  // ---------------------------------------------------------------------
  // Loading and saving
  // ---------------------------------------------------------------------

  /** A line is an entry when its first ':' is not at the start; the key is
    * the text before it and the value everything after. */
  function ParseLine(line: Str): (r: Option<(Str, Str)>)
    ensures r.None? <==> IndexOfChar(line, ':') <= 0
    ensures r.Some? ==> ':' !in r.value.0 && |r.value.0| > 0
  {
    var i := IndexOfChar(line, ':');
    if i > 0 then Some((line[..i], line[i + 1..])) else None
  }

  /** An entry line is its key, a colon and its value. */
  lemma ParseLineSplits(line: Str)
    requires ParseLine(line).Some?
    ensures line == ParseLine(line).value.0 + ":" + ParseLine(line).value.1
  {
    var i := IndexOfChar(line, ':');
    assert line == line[..i] + ":" + line[i + 1..];
  }

  /** A line written from a colon-free, non-empty key reads back as that
    * key and value. */
  lemma ParseEntry(k: Str, v: Str)
    requires |k| > 0 && ':' !in k
    ensures ParseLine(k + ":" + v) == Some((k, v))
  {
    var line := k + ":" + v;
    assert line[|k|] == ':';
    assert line[..|k|] == k;
    assert line[|k| + 1..] == v;
  }

  /** `loadInternal`: the entries of all lines, a later line overriding an
    * earlier one with the same key. */
  function Load(lines: seq<Str>): (m: Options)
    ensures forall k :: k in m ==> |k| > 0 && ':' !in k
    decreases |lines|
  {
    if |lines| == 0 then map[]
    else
      var m := Load(lines[..|lines| - 1]);
      match ParseLine(lines[|lines| - 1])
      case None => m
      case Some(kv) => m[kv.0 := kv.1]
  }

  /** The key of a line, when it has one. */
  predicate LineHasKey(line: Str, k: Str)
  {
    ParseLine(line).Some? && ParseLine(line).value.0 == k
  }

  /** The index of the last of the first `n` lines carrying key `k`, or -1. */
  function LastLineWith(lines: seq<Str>, k: Str, n: nat): (r: int)
    requires n <= |lines|
    ensures -1 <= r < n
    ensures r == -1 <==> forall i :: 0 <= i < n ==> !LineHasKey(lines[i], k)
    ensures r >= 0 ==> LineHasKey(lines[r], k) && forall j :: r < j < n ==> !LineHasKey(lines[j], k)
  {
    if n == 0 then -1
    else if LineHasKey(lines[n - 1], k) then n - 1
    else LastLineWith(lines, k, n - 1)
  }

  /** A key is loaded exactly when some line carries it, and its value comes
    * from the last such line. */
  lemma {:induction false} LoadLastWins(lines: seq<Str>, k: Str, n: nat)
    requires n <= |lines|
    ensures k in Load(lines[..n]) <==> LastLineWith(lines, k, n) >= 0
    ensures k in Load(lines[..n]) ==> Load(lines[..n])[k] == ParseLine(lines[LastLineWith(lines, k, n)]).value.1
  {
    if n > 0 {
      LoadLastWins(lines, k, n - 1);
      assert lines[..n][..n - 1] == lines[..n - 1];
      assert lines[..n][n - 1] == lines[n - 1];
    }
  }

  /** The lines `save` writes for the entries, in the map's iteration order
    * `keys`. */
  function SaveLines(m: Options, keys: seq<Str>): (r: seq<Str>)
    requires forall i :: 0 <= i < |keys| ==> keys[i] in m
    ensures |r| == |keys|
    ensures forall i :: 0 <= i < |keys| ==> r[i] == keys[i] + ":" + m[keys[i]]
  {
    seq(|keys|, i requires 0 <= i < |keys| => keys[i] + ":" + m[keys[i]])
  }

  /** `save` writes the lines separated by newlines. */
  function SaveText(m: Options, keys: seq<Str>): Str
    requires forall i :: 0 <= i < |keys| ==> keys[i] in m
  {
    JoinWith(SaveLines(m, keys), "\n")
  }

  /** Keys and values a line-based file can hold. */
  predicate Storable(m: Options)
  {
    forall k :: k in m ==> |k| > 0 && ':' !in k && '\n' !in k && '\n' !in m[k]
  }

  /** An iteration order: every key exactly once. */
  predicate EnumeratesKeys(m: Options, keys: seq<Str>)
  {
    (forall i :: 0 <= i < |keys| ==> keys[i] in m)
    && (forall k :: k in m ==> k in keys)
    && (forall i, j :: 0 <= i < j < |keys| ==> keys[i] != keys[j])
  }

  /** In a save, the lines carrying a key are the lines of that key. */
  lemma SavedLines(m: Options, keys: seq<Str>, k: Str)
    requires Storable(m) && EnumeratesKeys(m, keys)
    ensures var lines := SaveLines(m, keys);
      var r := LastLineWith(lines, k, |lines|);
      (r >= 0 <==> k in m) && (r >= 0 ==> ParseLine(lines[r]) == Some((k, m[k])))
  {
    var lines := SaveLines(m, keys);
    var r := LastLineWith(lines, k, |lines|);
    if k in m {
      var i :| 0 <= i < |keys| && keys[i] == k;
      ParseEntry(keys[i], m[keys[i]]);
      assert LineHasKey(lines[i], k);
    }
    if r >= 0 {
      ParseEntry(keys[r], m[keys[r]]);
    }
  }

  /** Loading the lines of a save restores the map. */
  lemma LoadSaveLines(m: Options, keys: seq<Str>)
    requires Storable(m) && EnumeratesKeys(m, keys)
    ensures Load(SaveLines(m, keys)) == m
  {
    var lines := SaveLines(m, keys);
    assert lines[..|lines|] == lines;
    forall k ensures k in Load(lines) <==> k in m {
      LoadLastWins(lines, k, |lines|);
      SavedLines(m, keys, k);
    }
    forall k | k in m ensures Load(lines)[k] == m[k] {
      LoadLastWins(lines, k, |lines|);
      SavedLines(m, keys, k);
    }
  }

  /** Reading a saved file back (split at newlines) restores the map. */
  lemma SaveRoundTrip(m: Options, keys: seq<Str>)
    requires Storable(m) && EnumeratesKeys(m, keys)
    ensures Load(Split(SaveText(m, keys), '\n')) == m
  {
    var lines := SaveLines(m, keys);
    if |keys| == 0 {
      assert Split("", '\n') == [""];
      assert ParseLine("").None?;
      assert Load([""]) == Load([]);
      assert m == map[];
    } else {
      forall i | 0 <= i < |lines| ensures '\n' !in lines[i] {
        assert lines[i] == keys[i] + ":" + m[keys[i]];
      }
      JoinSplit(lines, '\n');
      LoadSaveLines(m, keys);
    }
  }

  // ---------------------------------------------------------------------
  // List values
  // ---------------------------------------------------------------------

  /** `set(key, list)`: items quoted, joined by ", ", in brackets. */
  function EncodeList(xs: seq<Str>): Str
  {
    "[" + JoinWith(QuoteAll(xs), ", ") + "]"
  }

  /** `getAsList`: brackets removed; blank content is the empty list;
    * otherwise the quote-aware split at ',' with each item trimmed. */
  function GetAsList(raw: Option<Str>): (r: seq<Str>)
    ensures raw.None? ==> r == []
    ensures raw.Some? && IsBlank(RemoveSurrounding(raw.value, "[", "]")) ==> r == []
  {
    if raw.None? then []
    else
      var body := RemoveSurrounding(raw.value, "[", "]");
      if IsBlank(body) then []
      else
        var parts := SplitPreservingQuotes(body, ',');
        seq(|parts|, i requires 0 <= i < |parts| => Trim(parts[i]))
  }

  /** A list of quotable, trimmed items reads back as itself. */
  lemma ListRoundTrip(xs: seq<Str>)
    requires forall i :: 0 <= i < |xs| ==> Quotable(xs[i]) && Trimmed(xs[i])
    ensures GetAsList(Some(EncodeList(xs))) == xs
  {
    var inner := JoinWith(QuoteAll(xs), ", ");
    BracketsStripped(inner);
    assert ", " == [',', ' '];
    SplitQuotedList(xs, ',');
    if |xs| == 0 {
      assert inner == "";
    } else {
      QuotedJoinNotBlank(QuoteAll(xs), ", ");
      TrimSpaced(xs, SplitPreservingQuotes(inner, ','));
    }
  }

  lemma BracketsStripped(inner: Str)
    ensures RemoveSurrounding("[" + inner + "]", "[", "]") == inner
  {
    var raw := "[" + inner + "]";
    assert raw[..1] == "[";
    assert raw[|raw| - 1..] == "]";
    assert raw[1..|raw| - 1] == inner;
  }

  /** A join whose first part opens with a quote is not blank. */
  lemma QuotedJoinNotBlank(qs: seq<Str>, sep: Str)
    requires |qs| > 0 && |qs[0]| > 0 && qs[0][0] == '"'
    ensures !IsBlank(JoinWith(qs, sep))
  {
    var j := JoinWith(qs, sep);
    if |qs| == 1 {
      assert j[0] == '"';
    } else {
      assert j == qs[0] + (sep + JoinWith(qs[1..], sep));
      assert j[0] == qs[0][0];
    }
  }

  /** Trimming the split items (the later ones with their leading space) gives the items. */
  lemma TrimSpaced(xs: seq<Str>, parts: seq<Str>)
    requires |xs| > 0 && forall i :: 0 <= i < |xs| ==> Trimmed(xs[i])
    requires parts == [xs[0]] + Spaced(xs[1..])
    ensures seq(|parts|, i requires 0 <= i < |parts| => Trim(parts[i])) == xs
  {
    forall i | 0 <= i < |xs| ensures Trim(parts[i]) == xs[i] {
      TrimTrimmed(xs[i]);
      if i > 0 { assert parts[i] == " " + xs[i]; }
    }
  }

  /** An absent key, an empty list and blank content all read as no items. */
  lemma EmptyLists(blank: Str)
    requires IsBlank(blank) && '[' !in blank
    ensures GetAsList(Some("[]")) == []
    ensures GetAsList(Some(blank)) == []
  {
    assert RemoveSurrounding("[]", "[", "]") == "";
    if |blank| > 0 { assert blank[0] != '['; }
    assert RemoveSurrounding(blank, "[", "]") == blank;
  }

  // ---------------------------------------------------------------------
  // GUI scale
  // ---------------------------------------------------------------------

  /** The largest scale that fits the window, at least 1: a scale `k`
    * fits when the window is at least 320 by 240 pixels times `k`. */
  function DynamicScale(windowWidth: int, windowHeight: int): (r: int)
    ensures r >= 1
    ensures r == 1 || (r == KDiv(windowWidth, 320) || r == KDiv(windowHeight, 240))
    ensures r == 1 || Fits(r, windowWidth, windowHeight)
    ensures !Fits(r + 1, windowWidth, windowHeight)
    ensures !Fits(2, windowWidth, windowHeight) <==> r == 1
  {
    ScaleFits(windowWidth, windowHeight);
    var s := if KDiv(windowWidth, 320) < KDiv(windowHeight, 240) then KDiv(windowWidth, 320) else KDiv(windowHeight, 240);
    if s < 1 then 1 else s
  }

  /** A window of at least 320 by 240 pixels per unit of scale. */
  predicate Fits(scale: int, windowWidth: int, windowHeight: int)
  {
    320 * scale <= windowWidth && 240 * scale <= windowHeight
  }

  /** A scale fits exactly when it is at most both truncated quotients. */
  lemma ScaleFits(windowWidth: int, windowHeight: int)
    ensures forall k :: k >= 1 ==>
      (Fits(k, windowWidth, windowHeight) <==> k <= KDiv(windowWidth, 320) && k <= KDiv(windowHeight, 240))
  {
    forall k | k >= 1
      ensures Fits(k, windowWidth, windowHeight) <==> k <= KDiv(windowWidth, 320) && k <= KDiv(windowHeight, 240)
    {
      QuotientBound(windowWidth, 320, k);
      QuotientBound(windowHeight, 240, k);
    }
  }

  /** For a positive `k`, `k * b <= a` exactly when `k` is at most the
    * truncated quotient. */
  lemma QuotientBound(a: int, b: int, k: int)
    requires b > 0 && k >= 1
    ensures k * b <= a <==> k <= KDiv(a, b)
  {
    if a >= 0 {
      assert a == (a / b) * b + a % b;
      if k <= a / b {
        assert k * b <= (a / b) * b;
      } else {
        assert (a / b + 1) * b <= k * b;
      }
    }
  }

  /** `mcScale`: the stored `guiScale` (0 when absent or not a number), unless
    * it is 0 ("auto") or larger than the dynamic scale. */
  function McScale(options: Options, windowWidth: int, windowHeight: int): (r: int)
    ensures r <= DynamicScale(windowWidth, windowHeight)
  {
    var raw := if "guiScale" in options then ToIntOrNull(options["guiScale"]) else None;
    var guiScale := raw.GetOr(0);
    var dynamic := DynamicScale(windowWidth, windowHeight);
    if guiScale == 0 || dynamic < guiScale then dynamic else guiScale
  }

  /** The scale is the dynamic one when `guiScale` is unset or 0, and the
    * smaller of the two otherwise. */
  lemma McScaleIsMin(options: Options, w: int, h: int)
    ensures var g := if "guiScale" in options then ToIntOrNull(options["guiScale"]).GetOr(0) else 0;
      var d := DynamicScale(w, h);
      (g == 0 ==> McScale(options, w, h) == d)
      && (g != 0 ==> McScale(options, w, h) == (if g < d then g else d))
      && (g >= 0 ==> McScale(options, w, h) >= 1)
  {
  }
}

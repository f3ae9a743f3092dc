/** The exception a bad file name raises: exactly one of two kinds, with
  * the field of the other kind left at its default. */
module InvalidFilename {
  import opened Wrappers
  import opened KotlinText

  datatype Kind = ContainsIllegalCharactersKind | InvalidLengthKind

  /** `illegalCharacters` is null and `invalidLength` is -1 unless the
    * constructor of that kind set them. */
  datatype InvalidFilenameException = InvalidFilenameException(
    message: Str, kind: Kind, illegalCharacters: Option<Str>, invalidLength: int)

  /** The constructor taking the illegal characters. */
  function WithCharacters(message: Str, chars: Str): (e: InvalidFilenameException)
    ensures ContainsIllegalCharacters(e) && !IsInvalidLength(e)
    ensures e.illegalCharacters == Some(chars) && e.invalidLength == -1
    ensures e.message == message
  {
    InvalidFilenameException(message, ContainsIllegalCharactersKind, Some(chars), -1)
  }

  /** The constructor taking the length. */
  function WithLength(message: Str, length: int): (e: InvalidFilenameException)
    ensures IsInvalidLength(e) && !ContainsIllegalCharacters(e)
    ensures e.illegalCharacters.None? && e.invalidLength == length
    ensures e.message == message
  {
    InvalidFilenameException(message, InvalidLengthKind, None, length)
  }

  predicate ContainsIllegalCharacters(e: InvalidFilenameException)
  {
    e.kind == ContainsIllegalCharactersKind
  }

  predicate IsInvalidLength(e: InvalidFilenameException)
  {
    e.kind == InvalidLengthKind
  }
}

/** File-name validation and the file browser's order. */
module FileUtils {
  import opened Wrappers
  import opened KotlinText
  import opened InvalidFilename

  /** The characters of `INVALID_CHARACTERS_REGEX`. */
  const IllegalChars: set<char> := {'\\', '/', ':', '*', '?', '"', '<', '>', '|', '\t', '\n'}

  const MaxNameLength: int := 255

  /** Each character of `r` occurs in `s` before any occurrence of the
    * characters after it in `r`. */
  predicate InFirstAppearanceOrder(r: Str, s: Str)
  {
    forall i, j :: 0 <= i < j < |r| ==> OccursBefore(s, r[i], r[j])
  }

  /** `x` occurs in `s` at a position no occurrence of `y` precedes. */
  predicate OccursBefore(s: Str, x: char, y: char)
  {
    exists a :: 0 <= a < |s| && s[a] == x && forall b :: 0 <= b <= a ==> s[b] != y
  }

  /** The illegal characters of `s` in order of first appearance, each once:
    * the regex matches, `distinct()` and joined. */
  function IllegalIn(s: Str): (r: Str)
    ensures forall c :: c in r <==> c in s && c in IllegalChars
    ensures forall i, j :: 0 <= i < j < |r| ==> r[i] != r[j]
    ensures InFirstAppearanceOrder(r, s)
    decreases |s|
  {
    if |s| == 0 then ""
    else
      var p := s[..|s| - 1];
      var r := IllegalIn(p);
      var c := s[|s| - 1];
      assert forall x :: x in s <==> x in p || x == c;
      assert s == p + [c];
      if c in IllegalChars && c !in r then
        FirstAppearanceAppend(p, r, c, true);
        r + [c]
      else
        FirstAppearanceAppend(p, r, c, false);
        r
  }

  /** Extending `p` by a character keeps the order of first appearance, and
    * the character can join the list when `p` does not hold it. */
  lemma FirstAppearanceAppend(p: Str, r: Str, c: char, joins: bool)
    requires InFirstAppearanceOrder(r, p)
    requires joins ==> c !in p && forall x :: x in r ==> x in p
    ensures InFirstAppearanceOrder(if joins then r + [c] else r, p + [c])
  {
    var s, t := p + [c], if joins then r + [c] else r;
    forall i, j | 0 <= i < j < |t|
      ensures OccursBefore(s, t[i], t[j])
    {
      if j < |r| {
        assert OccursBefore(p, r[i], r[j]);
        var a :| 0 <= a < |p| && p[a] == r[i] && forall b :: 0 <= b <= a ==> p[b] != r[j];
        assert s[a] == t[i] && forall b :: 0 <= b <= a ==> s[b] == p[b];
      } else {
        assert r[i] in p;
        var a :| 0 <= a < |p| && p[a] == r[i];
        assert s[a] == t[i] && forall b :: 0 <= b <= a ==> s[b] == p[b];
      }
    }
  }

  /** `checkFilenameValidity`: None when the name is accepted, else the
    * exception it throws. */
  function CheckFilenameValidity(s: Str): (r: Option<InvalidFilenameException>)
    ensures r.Some? && ContainsIllegalCharacters(r.value) ==> r.value.illegalCharacters == Some(IllegalIn(s))
    ensures r.Some? && IsInvalidLength(r.value) ==> r.value.invalidLength == Utf16Length(s)
  {
    var illegal := IllegalIn(s);
    if |illegal| > 0 then Some(WithCharacters("The filename contains illegal characters", illegal))
    else if Utf16Length(s) > MaxNameLength then Some(WithLength("Invalid filename length", Utf16Length(s)))
    else None
  }

  /** A name is rejected for its characters exactly when it holds an illegal
    * one, for its length only when its characters are clean and it is over
    * 255 UTF-16 units long, and accepted otherwise. */
  lemma CheckFilenameCases(s: Str)
    ensures var r := CheckFilenameValidity(s);
      (r.Some? && ContainsIllegalCharacters(r.value) <==> exists i :: 0 <= i < |s| && s[i] in IllegalChars)
      && (r.Some? && IsInvalidLength(r.value) <==> (forall i :: 0 <= i < |s| ==> s[i] !in IllegalChars) && Utf16Length(s) > MaxNameLength)
      && (r.None? <==> (forall i :: 0 <= i < |s| ==> s[i] !in IllegalChars) && Utf16Length(s) <= MaxNameLength)
  {
    var r := IllegalIn(s);
    if |r| > 0 {
      assert r[0] in r;
    }
    forall i | 0 <= i < |s| && s[i] in IllegalChars ensures |r| > 0 {
      assert s[i] in r;
    }
  }

  /** 128 emoji are 256 UTF-16 units, one over the limit. */
  lemma EmojiNameTooLong()
    ensures CheckFilenameValidity(seq(128, _ => '\U{1F600}'))
      == Some(WithLength("Invalid filename length", 256))
  {
    var name := seq(128, _ => '\U{1F600}');
    assert forall i :: 0 <= i < |name| ==> !InBmp(name[i]) && name[i] !in IllegalChars;
    assert Utf16Length(name) == 256;
    CheckFilenameCases(name);
  }

  /** A listed entry: its name and whether it is a directory. */
  datatype FileEntry = FileEntry(name: Str, isDirectory: bool)

  /** `sortWithFileName`: directories before files, then the name order
    * `compareChar` gives (a comparison the model takes as a parameter). */
  function SortWithFileName(a: FileEntry, b: FileEntry, compareChar: (Str, Str) -> int): (r: int)
    ensures a.isDirectory && !b.isDirectory ==> r == -1
    ensures !a.isDirectory && b.isDirectory ==> r == 1
    ensures a.isDirectory == b.isDirectory ==> r == compareChar(a.name, b.name)
  {
    if a.isDirectory && !b.isDirectory then -1
    else if !a.isDirectory && b.isDirectory then 1
    else compareChar(a.name, b.name)
  }

  /** A list in the order the comparator gives. */
  predicate SortedByFileName(xs: seq<FileEntry>, compareChar: (Str, Str) -> int)
  {
    forall i, j :: 0 <= i < j < |xs| ==> SortWithFileName(xs[i], xs[j], compareChar) <= 0
  }

  /** In a list sorted this way no file comes before a directory, and
    * entries of the same kind are in name order. */
  lemma SortedListsDirectoriesFirst(xs: seq<FileEntry>, compareChar: (Str, Str) -> int)
    requires SortedByFileName(xs, compareChar)
    ensures forall i, j :: 0 <= i < j < |xs| && xs[j].isDirectory ==> xs[i].isDirectory
    ensures forall i, j :: 0 <= i < j < |xs| && xs[i].isDirectory == xs[j].isDirectory ==> compareChar(xs[i].name, xs[j].name) <= 0
  {
    forall i, j | 0 <= i < j < |xs| ensures SortWithFileName(xs[i], xs[j], compareChar) <= 0 {
    }
  }

  /** The comparator is antisymmetric whenever the name order is. */
  lemma SortAntisymmetric(a: FileEntry, b: FileEntry, compareChar: (Str, Str) -> int)
    requires compareChar(a.name, b.name) < 0 <==> compareChar(b.name, a.name) > 0
    ensures SortWithFileName(a, b, compareChar) < 0 <==> SortWithFileName(b, a, compareChar) > 0
  {
  }
}

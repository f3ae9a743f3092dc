# ZalithLauncher launch planning, in Dafny

A model of the pure, sequential core of ZalithLauncher, an Android launcher
for Minecraft: Java Edition. The model covers the parts of the launcher that
decide what gets downloaded, which Java runtime and arguments a game is
started with, and how versions, settings and small registries behave:

- version-string arithmetic: string rotation, dotted class-version
  comparison, `${key}` substitution, the quote-aware splitter, Forge and
  NeoForge build numbers, OptiFine and NeoForge name derivation, Minecraft
  version codes and loader detection from a version JSON;
- manifest planning: Maven coordinates to paths, the library patch rules
  (JNA, OSHI, ASM), the inherited-manifest merge, the library rule filter,
  classpath assembly, and the asset and library download schedule;
- JVM arguments: the user-argument tokenizer, the default-argument override
  filter, prefix purging and the assembly of the launch command;
- runtime selection: architecture names and codes, runtime compatibility,
  the `release` file's major version, and exact and nearest JRE search;
- validators, codecs and registries: file names, offline user names, the
  `options.txt` codec and its list values, game paths, favourites, renderers
  and renderer plugins, the version-type filter, the addon selection state
  machine, per-version configs and the version object's setting fallbacks;
- the network retry policy with capped exponential backoff.

Each source component is one Dafny module. Shared modules sit beneath
them: `Wrappers`, with `Option` and `Result`; `Sequences`, with the
order-preserving subsequence relation the filters are stated with;
`Grouping`, the stable grouping of a list by a rank, against which the
Java-argument tokenizer is proved in `LauncherTokens`; and `KotlinText`,
which gives the Kotlin standard library's string operations the model
relies on. These are `indexOf`, `split`, `replace`, `trim`, `lowercase`,
`toIntOrNull` and `String.length`, which counts UTF-16 code units, each
written out with the semantics Kotlin documents. Strings are sequences of
Unicode characters; where the code compares a length with a limit or
hashes a name, the UTF-16 code units the JVM uses are counted instead.

Everything the code reads from the device or the disk becomes a parameter.
This covers file existence, SHA-1 results, settings, the device
architecture, Vulkan and Zink support, the GLES version and regular
expression matches. Exceptions become `Result` errors or `Option` values.
Mutable objects become immutable values that an operation returns updated.

## Model

| member | source | states |
|---|---|---|
| StringUtils.ShiftString | ZalithLauncher/src/main/java/com/movtery/zalithlauncher/utils/string/StringUtils.kt:10-26 | An empty input, or a shift that is a multiple of the length, gives the input back; a negative JVM remainder makes `substring` throw; otherwise LEFT rotates by the remainder k of the count over the length and RIGHT by the length minus k |
| StringUtils.ShiftLeftRight | ZalithLauncher/src/main/java/com/movtery/zalithlauncher/utils/string/StringUtils.kt:16-25 | Shifting left by k ≥ 0 and then right by k restores the input |
| StringUtils.ShiftRightLeft | ZalithLauncher/src/main/java/com/movtery/zalithlauncher/utils/string/StringUtils.kt:16-25 | Shifting right by k ≥ 0 and then left by k restores the input |
| StringUtils.CompareClassVersions | ZalithLauncher/src/main/java/com/movtery/zalithlauncher/utils/string/StringUtils.kt:84-94 | The result is -1, 0 or 1 |
| StringUtils.CompareZeroIff | ZalithLauncher/src/main/java/com/movtery/zalithlauncher/utils/string/StringUtils.kt:84-94 | Two versions compare equal exactly when every segment agrees, with missing and non-numeric segments read as 0 |
| StringUtils.CompareAntisymmetric | ZalithLauncher/src/main/java/com/movtery/zalithlauncher/utils/string/StringUtils.kt:84-94 | Swapping the arguments flips the sign |
| StringUtils.CompareTransitive | ZalithLauncher/src/main/java/com/movtery/zalithlauncher/utils/string/StringUtils.kt:84-94 | "Not newer than" is transitive |
| StringUtils.CompareChain | ZalithLauncher/src/main/java/com/movtery/zalithlauncher/utils/string/StringUtils.kt:84-94 | "At least as new as" is transitive |
| StringUtils.TrailingZeroSegment | ZalithLauncher/src/main/java/com/movtery/zalithlauncher/utils/string/StringUtils.kt:85-93 | A version compares equal to itself with ".0" appended, so "1.2" equals "1.2.0" |
| StringUtils.ExtractUntilCharacter | ZalithLauncher/src/main/java/com/movtery/zalithlauncher/utils/string/StringUtils.kt:99-106 | A missing marker, or no terminator after it, gives null; a result holds no terminator and sits between the first marker and the next terminator |
| StringUtils.InsertJsonValueList | ZalithLauncher/src/main/java/com/movtery/zalithlauncher/utils/string/StringUtils.kt:116-117 | Every argument gets the substitution, in place and in order |
| StringUtils.InsertWithoutPlaceholders | ZalithLauncher/src/main/java/com/movtery/zalithlauncher/utils/string/StringUtils.kt:119-122 | Text without "${" comes back unchanged |
| StringUtils.InsertExpands | ZalithLauncher/src/main/java/com/movtery/zalithlauncher/utils/string/StringUtils.kt:119-122 | On a template of literal text and `${key}` holes, each hole becomes the value of the first entry for its key and everything else stays |
| StringUtils.SplitPreservingQuotes | ZalithLauncher/src/main/java/com/movtery/zalithlauncher/utils/string/StringUtils.kt:124-155 | No token is empty |
| StringUtils.QuoteFreeSplit | ZalithLauncher/src/main/java/com/movtery/zalithlauncher/utils/string/StringUtils.kt:124-155 | Without quotes the splitter is a plain split on the delimiter with the empty parts dropped |
| StringUtils.SplitQuotedList | ZalithLauncher/src/main/java/com/movtery/zalithlauncher/utils/string/StringUtils.kt:124-155 | Quoted items joined by the delimiter and a space split back into the items, quotes dropped and a delimiter inside quotes not splitting; every item after the first keeps the leading space |
| Architecture.ArchAsInt | ZalithLauncher/src/main/java/com/movtery/zalithlauncher/utils/device/Architecture.kt:40-49 | On the lower-cased, trimmed, space-free name, each code is given exactly when its own test holds and no earlier one does: ARM64 ("arm64" or "aarch64"), then ARM, then X86_64, then X86; the name is unsupported exactly when it matches none of the tests |
| Architecture.ArchAsString | ZalithLauncher/src/main/java/com/movtery/zalithlauncher/utils/device/Architecture.kt:51-57 | Every code other than the four supported ones is named "UNSUPPORTED_ARCH" |
| Architecture.ArchNameRoundTrip | ZalithLauncher/src/main/java/com/movtery/zalithlauncher/utils/device/Architecture.kt:40-57 | Reading a supported code's name back gives the code; any other code reads back as UNSUPPORTED_ARCH |
| Architecture.DecideNone | ZalithLauncher/src/main/java/com/movtery/zalithlauncher/utils/device/Architecture.kt:42-48 | A normalised name that mentions no architecture falls through to UNSUPPORTED_ARCH |
| Runtimes.NamedRuntimeIncompatible | ZalithLauncher/src/main/java/com/movtery/zalithlauncher/game/multirt/Runtime.java:17-31 | The name-only constructor leaves version and architecture null, Java version 0 and not bundled, and such a runtime is never compatible |
| Runtimes.CompatibleWithDeviceName | ZalithLauncher/src/main/java/com/movtery/zalithlauncher/game/multirt/Runtime.java:29-31 | A runtime whose architecture is the device's own name is compatible exactly when its version is known; a compatible runtime implies a device code that archAsInt can produce |
| Runtimes.EqualsHashConsistent | ZalithLauncher/src/main/java/com/movtery/zalithlauncher/game/multirt/Runtime.java:33-44 | Equality holds exactly when the names are equal, and equal runtimes hash alike |
| Runtimes.HashIsPolynomial | ZalithLauncher/src/main/java/com/movtery/zalithlauncher/game/multirt/Runtime.java:41-44 | The Int-wrapping hash over the name's UTF-16 code units equals the exact polynomial hash reduced once to 32 bits |
| Runtimes.EmojiNameHash | ZalithLauncher/src/main/java/com/movtery/zalithlauncher/game/multirt/Runtime.java:41-44 | A name outside the Basic Multilingual Plane is hashed through its two surrogates: U+1F600 hashes to 31 * 0xD83D + 0xDE00 |
| Runtimes.LoadFromRelease | ZalithLauncher/src/main/java/com/movtery/zalithlauncher/game/multirt/RuntimesManager.kt:69-94 | A missing or unreadable release file, or one without both JAVA_VERSION and OS_ARCH, gives the bare named runtime; otherwise the runtime carries both values, their major version, and is bundled exactly when the name is a bundled JRE |
| Runtimes.LegacyMajorVersion | ZalithLauncher/src/main/java/com/movtery/zalithlauncher/game/multirt/RuntimesManager.kt:80-82 | A "1.x…" version string yields major version x |
| Runtimes.ModernMajorVersion | ZalithLauncher/src/main/java/com/movtery/zalithlauncher/game/multirt/RuntimesManager.kt:80-85 | An "x…" version string with x other than 1 yields x |
| Runtimes.LoadRuntime | ZalithLauncher/src/main/java/com/movtery/zalithlauncher/game/multirt/RuntimesManager.kt:67-96 | A cached entry is returned untouched unless a reload is forced; otherwise the release file is read and the cache updated under that name only |
| Runtimes.RemoveRuntime | ZalithLauncher/src/main/java/com/movtery/zalithlauncher/game/multirt/RuntimesManager.kt:164-168 | An existing runtime's entry is evicted and every other entry kept; a missing directory changes nothing |
| Runtimes.LoadTwice | ZalithLauncher/src/main/java/com/movtery/zalithlauncher/game/multirt/RuntimesManager.kt:67-68 | A second unforced load returns what the first one cached, whatever the release file says by then |
| Runtimes.RemoveThenLoad | ZalithLauncher/src/main/java/com/movtery/zalithlauncher/game/multirt/RuntimesManager.kt:62-68 | After a removal the next load reads the release file again; forceReload equals a forced load |
| Runtimes.SortRuntimes | ZalithLauncher/src/main/java/com/movtery/zalithlauncher/game/multirt/RuntimesManager.kt:48-50 | The listing is a permutation of its input, ordered newest first by the version string, else the name |
| Runtimes.SortedAllPairs | ZalithLauncher/src/main/java/com/movtery/zalithlauncher/game/multirt/RuntimesManager.kt:48-50 | In a sorted listing every runtime is at least as new as every later one |
| Runtimes.GetRuntimes | ZalithLauncher/src/main/java/com/movtery/zalithlauncher/game/multirt/RuntimesManager.kt:39-52 | A missing folder gives an empty list, an unlistable one an error, and otherwise, newest first, a permutation of the runtimes loaded for each directory one by one |
| Runtimes.LoadAll | ZalithLauncher/src/main/java/com/movtery/zalithlauncher/game/multirt/RuntimesManager.kt:46-49 | Loading the directories one after another gives, name by name, what loading each from the initial cache gives (a cached entry unless forced, else the release file), and keeps the cache consistent |
| Runtimes.ExactJreName | ZalithLauncher/src/main/java/com/movtery/zalithlauncher/game/multirt/RuntimesManager.kt:54-56 | The name of the first runtime with exactly that Java version, or null when there is none |
| Runtimes.NearestJreName | ZalithLauncher/src/main/java/com/movtery/zalithlauncher/game/multirt/RuntimesManager.kt:58-60 | Null exactly when no runtime is eligible; otherwise an eligible runtime whose Java version is the smallest one at or above the target |
| MathUtils.FindNearestPositive | ZalithLauncher/src/main/java/com/movtery/zalithlauncher/utils/math/MathUtils.kt:13-34 | Null exactly when no value is eligible; otherwise an eligible object whose rank is its Int-wrapped distance. For every target, an exact hit is the first object at distance 0, and a non-zero rank is no larger than any distance at or above the target and smaller than that of every earlier such object. For a non-negative target (the only kind RuntimesManager.kt:59 passes) the result is the earliest object with the smallest distance at or above the target |
| MathUtils.EligibleWithoutWrap | ZalithLauncher/src/main/java/com/movtery/zalithlauncher/utils/math/MathUtils.kt:18-25 | For a non-negative target an object is eligible exactly when its value is at or above the target and the distance is below Int.MAX_VALUE |
| DownloadUtils.CoordinateOf | ZalithLauncher/src/main/java/com/movtery/zalithlauncher/game/version/download/Minecraft.DownloadUtils.kt:72-81 | A name with fewer than three ':' parts has no coordinate; otherwise the third part is the version and a fourth part the classifier |
| DownloadUtils.CoordinateRoundTrip | ZalithLauncher/src/main/java/com/movtery/zalithlauncher/game/version/download/Minecraft.DownloadUtils.kt:72-83 | Reading back the name of a coordinate whose parts hold no ':' gives the coordinate |
| DownloadUtils.ArtifactToPath | ZalithLauncher/src/main/java/com/movtery/zalithlauncher/game/version/download/Minecraft.DownloadUtils.kt:69-84 | A declared artifact path is returned verbatim; otherwise the result is null exactly when the name has fewer than three parts, and is the Maven layout of the name's coordinate |
| DownloadUtils.CoordinatePath | ZalithLauncher/src/main/java/com/movtery/zalithlauncher/game/version/download/Minecraft.DownloadUtils.kt:78-83 | A library named by a coordinate and without a declared path is stored at group/with/slashes/artifact/version/artifact-version[-classifier].jar |
| DownloadUtils.MavenPathSegments | ZalithLauncher/src/main/java/com/movtery/zalithlauncher/game/version/download/Minecraft.DownloadUtils.kt:78-83 | With slash-free artifact, version and classifier, the path's last three segments are the artifact, the version and the jar name |
| DownloadUtils.CreateLibraryInfo | ZalithLauncher/src/main/java/com/movtery/zalithlauncher/game/version/download/Minecraft.DownloadUtils.kt:177-183 | A library without a download artifact gets an empty one and one that has an artifact is untouched; nothing else changes |
| DownloadUtils.UpdateLibrary | ZalithLauncher/src/main/java/com/movtery/zalithlauncher/game/version/download/Minecraft.DownloadUtils.kt:161-175 | The library takes the new name, and its artifact the new path, SHA-1 and url; the rest of the library is kept |
| DownloadUtils.ProcessLibrary | ZalithLauncher/src/main/java/com/movtery/zalithlauncher/game/version/download/Minecraft.DownloadUtils.kt:92-108 | A name without a version segment, or outside the JNA, OSHI and ASM prefixes, is left alone; any rewrite keeps the rules, checksum and size and gives an artifact (corrected per Findings row 3) |
| DownloadUtils.JnaRewrite | ZalithLauncher/src/main/java/com/movtery/zalithlauncher/game/version/download/Minecraft.DownloadUtils.kt:110-125 | JNA at 5.13.0 or later is kept; anything older becomes 5.13.0 with the fixed path, SHA-1 and url (corrected per Findings row 3) |
| DownloadUtils.OshiRewrite | ZalithLauncher/src/main/java/com/movtery/zalithlauncher/game/version/download/Minecraft.DownloadUtils.kt:127-142 | Only oshi-core 6.2 is rewritten, to 6.3.0 |
| DownloadUtils.AsmRewrite | ZalithLauncher/src/main/java/com/movtery/zalithlauncher/game/version/download/Minecraft.DownloadUtils.kt:144-159 | asm-all below major version 5 becomes 5.0.4 and loses its repository url; later ones are kept |
| DownloadUtils.ProcessLibraries | ZalithLauncher/src/main/java/com/movtery/zalithlauncher/game/version/download/Minecraft.DownloadUtils.kt:86-90 | Every library of the list is rewritten, in place (corrected per Findings row 3) |
| DownloadUtils.ProcessIdempotent | ZalithLauncher/src/main/java/com/movtery/zalithlauncher/game/version/download/Minecraft.DownloadUtils.kt:92-159 | Rewriting a library twice gives what rewriting it once gives (corrected per Findings row 3) |
| DownloadUtils.ProcessLibraryAsWritten | ZalithLauncher/src/main/java/com/movtery/zalithlauncher/game/version/download/Minecraft.DownloadUtils.kt:110-125 | The rewrite with the JNA test exactly as written, major ≥ 5 and minor ≥ 13 |
| DownloadUtils.JnaDowngradeAsWritten | ZalithLauncher/src/main/java/com/movtery/zalithlauncher/game/version/download/Minecraft.DownloadUtils.kt:115 | As written, JNA 6.0.0 fails the keep test and is renamed to 5.13.0 |
| DownloadUtils.JnaNeverDowngraded | ZalithLauncher/src/main/java/com/movtery/zalithlauncher/game/version/download/Minecraft.DownloadUtils.kt:114-124 | With the version-order test, a JNA library is rewritten exactly when it is older than 5.13, so it only ever moves forward |
| Launcher.AddFragment | ZalithLauncher/src/main/java/com/movtery/zalithlauncher/game/launch/Launcher.kt:389-398 | No text is lost or reordered: a fragment with two or more '=' is dropped; an accepted one is glued to the last argument when that ends with ',' or the fragment holds one, and otherwise becomes a new argument |
| Launcher.CutFragment | ZalithLauncher/src/main/java/com/movtery/zalithlauncher/game/launch/Launcher.kt:376-386 | The fragment cut for a separator starts with that separator and occurs in the remaining text |
| Launcher.StepShrinks | ZalithLauncher/src/main/java/com/movtery/zalithlauncher/game/launch/Launcher.kt:386-387 | Removing a cut fragment shortens the remaining text by at least the separator's length, so parsing terminates |
| Launcher.FragmentEnd | ZalithLauncher/src/main/java/com/movtery/zalithlauncher/game/launch/Launcher.kt:379-384 | A fragment ends at the nearest later start of any separator, or at the end of the text |
| Launcher.ParseJavaArguments | ZalithLauncher/src/main/java/com/movtery/zalithlauncher/game/launch/Launcher.kt:369-400 | Every argument is free of spaces and starts with one of the separators, and the arguments together are no longer than the input |
| LauncherTokens.ParseClean | ZalithLauncher/src/main/java/com/movtery/zalithlauncher/game/launch/Launcher.kt:369-400 | A string made of clean fragments, none a prefix of another, parses to exactly those fragments, grouped by the first separator each starts with and in input order within a group |
| LauncherTokens.ParseOrdered | ZalithLauncher/src/main/java/com/movtery/zalithlauncher/game/launch/Launcher.kt:369-400 | Clean fragments already in separator order parse back to the same list |
| LauncherTokens.ParseSingle | ZalithLauncher/src/main/java/com/movtery/zalithlauncher/game/launch/Launcher.kt:369-400 | A single clean argument parses to itself |
| LauncherTokens.ReorderExample | ZalithLauncher/src/main/java/com/movtery/zalithlauncher/game/launch/Launcher.kt:369-400 | "-Xmx1G-Dfoo=1" parses to "-Dfoo=1" then "-Xmx1G", because "-D" is tried before "-X" |
| Launcher.AcceptedIffOneEquals | ZalithLauncher/src/main/java/com/movtery/zalithlauncher/game/launch/Launcher.kt:389 | The first and last '=' coincide exactly when the fragment holds at most one '=' |
| Launcher.KeepNotOverridden | ZalithLauncher/src/main/java/com/movtery/zalithlauncher/game/launch/Launcher.kt:353-360 | The kept defaults are exactly those whose text before '=' starts no user argument, in their original order |
| Launcher.UserThenDefaults | ZalithLauncher/src/main/java/com/movtery/zalithlauncher/game/launch/Launcher.kt:315-364 | The user's arguments come first, in order, followed by exactly the defaults none of them overrides, in the defaults' order |
| Launcher.PurgeArg | ZalithLauncher/src/main/java/com/movtery/zalithlauncher/game/launch/Launcher.kt:121-123 | The result is exactly the arguments without that prefix, in their order and with their repetitions (the reference prefix filter) |
| Launcher.PurgeAll | ZalithLauncher/src/main/java/com/movtery/zalithlauncher/game/launch/Launcher.kt:92-105 | The result is exactly the arguments that start with none of the purged prefixes, in their order and with their repetitions |
| Launcher.ProgressFinalUserArgs | ZalithLauncher/src/main/java/com/movtery/zalithlauncher/game/launch/Launcher.kt:92-119 | Exactly the arguments free of the purged prefixes, in order and with repetitions, followed by the five the launcher appends |
| Launcher.OneHeapSetting | ZalithLauncher/src/main/java/com/movtery/zalithlauncher/game/launch/Launcher.kt:93-111 | After the replacement exactly one -Xms and one -Xmx argument remain |
| Launcher.LaunchArgv | ZalithLauncher/src/main/java/com/movtery/zalithlauncher/game/launch/Launcher.kt:64-83 | "java" is argv[0]; then exactly the Java arguments free of the controlled prefixes, in order and with repetitions; then the launcher's five arguments; then the game's JVM arguments last |
| GameLauncher.NoOsxOnly | ZalithLauncher/src/main/java/com/movtery/zalithlauncher/game/launch/GameLauncher.kt:263-268 | The scan finds no rule that allows only macOS exactly when no such rule exists |
| GameLauncher.CheckRules | ZalithLauncher/src/main/java/com/movtery/zalithlauncher/game/launch/GameLauncher.kt:260-269 | A library without rules is used; one with rules is rejected exactly when some rule is "allow" with os.name "osx" |
| GameLauncher.RuleOrderIrrelevant | ZalithLauncher/src/main/java/com/movtery/zalithlauncher/game/launch/GameLauncher.kt:263-268 | Reordering the rules does not change the verdict |
| GameLauncher.EntryOf | ZalithLauncher/src/main/java/com/movtery/zalithlauncher/game/launch/GameLauncher.kt:250-252 | A library has an entry exactly when its rules admit it and it has a path; the entry is that path under the libraries home |
| GameLauncher.LibClasspath | ZalithLauncher/src/main/java/com/movtery/zalithlauncher/game/launch/GameLauncher.kt:247-255 | The classpath has no more entries than there are libraries |
| GameLauncher.LibClasspathEntries | ZalithLauncher/src/main/java/com/movtery/zalithlauncher/game/launch/GameLauncher.kt:247-255 | Every classpath entry is the file of an admitted library of the list |
| GameLauncher.LibClasspathAppend | ZalithLauncher/src/main/java/com/movtery/zalithlauncher/game/launch/GameLauncher.kt:249-253 | The classpath of two library lists is the concatenation of their classpaths |
| GameLauncher.LibClasspathSingle | ZalithLauncher/src/main/java/com/movtery/zalithlauncher/game/launch/GameLauncher.kt:250-252 | A single library contributes its entry exactly when it is admitted |
| GameLauncher.LibClasspathAllKept | ZalithLauncher/src/main/java/com/movtery/zalithlauncher/game/launch/GameLauncher.kt:247-255 | When every library is admitted, the i-th entry belongs to the i-th library |
| GameLauncher.LaunchClassPath | ZalithLauncher/src/main/java/com/movtery/zalithlauncher/game/launch/GameLauncher.kt:213-242 | A missing client jar leaves only the client jar; otherwise the entries joined by ':' with the client jar last, or first when the client goes first |
| GameLauncher.ClasspathSplits | ZalithLauncher/src/main/java/com/movtery/zalithlauncher/game/launch/GameLauncher.kt:224-240 | Splitting a client-last classpath at ':' gives back the library entries followed by the client jar |
| GameLauncher.GenerateLaunchClassPath | ZalithLauncher/src/main/java/com/movtery/zalithlauncher/game/launch/GameLauncher.kt:213-255 | The whole classpath is the admitted libraries' entries around the version's own jar |
| GameLauncher.GetRuntime | ZalithLauncher/src/main/java/com/movtery/zalithlauncher/game/launch/GameLauncher.kt:161-181 | The version's own runtime wins; otherwise the configured one is kept unless auto-pick is on and it is unknown or too old, when the nearest eligible installed runtime is chosen, falling back to the configured one when none is eligible |
| GameLauncher.LibglEs | ZalithLauncher/src/main/java/com/movtery/zalithlauncher/game/launch/GameLauncher.kt:317-326 | A device below GLES 3 gets "2"; a non-GLES renderer on GLES 3 or later gets "3" |
| GameLauncher.OpenGlesLevel | ZalithLauncher/src/main/java/com/movtery/zalithlauncher/game/launch/GameLauncher.kt:320-321 | A renderer "opengles" + v, where v holds neither "opengles" nor "_5", runs on GLES v |
| GameLauncher.SetRendererEnv | ZalithLauncher/src/main/java/com/movtery/zalithlauncher/game/launch/GameLauncher.kt:282-328 | POJAV_RENDERER is always set, POJAVEXEC_EGL whenever the renderer names an EGL library, and LIBGL_ES whenever no renderer plugin is selected |
| GameLauncher.SetRendererEnvRenderer | ZalithLauncher/src/main/java/com/movtery/zalithlauncher/game/launch/GameLauncher.kt:299-310 | POJAV_RENDERER holds the renderer's id: none of the variables set after it overwrites it |
| GameLauncher.SetRendererEnvLibglEs | ZalithLauncher/src/main/java/com/movtery/zalithlauncher/game/launch/GameLauncher.kt:286-327 | Without a plugin, LIBGL_ES comes from the renderer's own variables, then the GLES 2 preset, then the existing environment, then the detected GLES level, in that order |
| GameLauncher.SetRendererEnvFrame | ZalithLauncher/src/main/java/com/movtery/zalithlauncher/game/launch/GameLauncher.kt:282-328 | Variables the renderer does not concern keep their values, and no key is added beyond the presets, the renderer's variables, POJAVEXEC_EGL and POJAV_RENDERER |
| GameLauncher.GraphicsLibrary | ZalithLauncher/src/main/java/com/movtery/zalithlauncher/game/launch/GameLauncher.kt:335-345 | No library without a valid renderer; a plugin's library sits in its folder; otherwise the renderer's own |
| GameLauncher.GameFinalUserArgs | ZalithLauncher/src/main/java/com/movtery/zalithlauncher/game/launch/GameLauncher.kt:105-110 | The launcher's argument step, followed by the OpenGL library name when the renderer is valid |
| GameLauncher.GameOneHeapSetting | ZalithLauncher/src/main/java/com/movtery/zalithlauncher/game/launch/GameLauncher.kt:105-110 | The appended library name keeps exactly one -Xms and one -Xmx argument |
| GameLauncher.HasExtension | ZalithLauncher/src/main/java/com/movtery/zalithlauncher/game/launch/GameLauncher.kt:350-361 | A true answer means the name occurs followed by the end or a space; for names that cannot overlap themselves the answer is exact in both directions |
| VersionInfoParser.InsertSafety | ZalithLauncher/src/main/java/com/movtery/zalithlauncher/game/version/installed/VersionInfoParser.kt:119-137 | Each of the eight listed fields is copied from the version's manifest only when it is present there; every other field of the target is kept |
| VersionInfoParser.InsertSafetyIdempotent | ZalithLauncher/src/main/java/com/movtery/zalithlauncher/game/version/installed/VersionInfoParser.kt:119-137 | Copying twice from the same manifest changes nothing more |
| VersionInfoParser.LibraryKey | ZalithLauncher/src/main/java/com/movtery/zalithlauncher/game/version/installed/VersionInfoParser.kt:38 | A library's group and artifact are its name up to the last ':'; a name without ':' has none, and the substring call throws |
| VersionInfoParser.RemoveOverriddenAt | ZalithLauncher/src/main/java/com/movtery/zalithlauncher/game/version/installed/VersionInfoParser.kt:40-56 | The first inherited library with the custom library's key is removed and the others keep their order; no match leaves the list unchanged |
| VersionInfoParser.Remaining | ZalithLauncher/src/main/java/com/movtery/zalithlauncher/game/version/installed/VersionInfoParser.kt:34-57 | Each custom library removes at most one inherited library, so the result is a sub-multiset with at least as many entries as the inherited list minus the custom list; a custom name without ':' fails |
| VersionInfoParser.RemainingDisjoint | ZalithLauncher/src/main/java/com/movtery/zalithlauncher/game/version/installed/VersionInfoParser.kt:34-57 | Inherited libraries whose keys no custom library uses all survive, in order |
| VersionInfoParser.MergeKeepsInherited | ZalithLauncher/src/main/java/com/movtery/zalithlauncher/game/version/installed/VersionInfoParser.kt:66-101 | The inherited game arguments stay first and in order, and everything after them comes from the custom arguments |
| VersionInfoParser.MergeArgs | ZalithLauncher/src/main/java/com/movtery/zalithlauncher/game/version/installed/VersionInfoParser.kt:77-97 | A successful merge keeps the inherited arguments as a prefix and adds at most the remaining custom arguments |
| VersionInfoParser.MergeNoDuplicates | ZalithLauncher/src/main/java/com/movtery/zalithlauncher/game/version/installed/VersionInfoParser.kt:77-97 | No "--" flag or JSON object is added when it is already among the arguments |
| VersionInfoParser.MergeFailsOnlyAtEnd | ZalithLauncher/src/main/java/com/movtery/zalithlauncher/game/version/installed/VersionInfoParser.kt:80-84 | The merge can only fail when a duplicate flag is the last custom argument, where reading the next one is out of bounds |
| VersionInfoParser.MergePlain | ZalithLauncher/src/main/java/com/movtery/zalithlauncher/game/version/installed/VersionInfoParser.kt:92-94 | Plain string values are all appended, in order |
| VersionInfoParser.DuplicateFlagDropped | ZalithLauncher/src/main/java/com/movtery/zalithlauncher/game/version/installed/VersionInfoParser.kt:80-91 | A flag the inherited arguments already have is dropped together with the value after it |
| VersionInfoParser.FixJavaVersion | ZalithLauncher/src/main/java/com/movtery/zalithlauncher/game/version/installed/VersionInfoParser.kt:106-108 | A majorVersion of 0 takes the value of the version field, keeping version and component; any other manifest is untouched, and no field besides javaVersion ever changes |
| VersionInfoParser.FixJavaVersionIdempotent | ZalithLauncher/src/main/java/com/movtery/zalithlauncher/game/version/installed/VersionInfoParser.kt:106-108 | Fixing twice is fixing once |
| VersionInfoParser.GetGameManifest | ZalithLauncher/src/main/java/com/movtery/zalithlauncher/game/version/installed/VersionInfoParser.kt:18-113 | Without a loader, or when inheriting is skipped, only the libraries are patched; otherwise the libraries are the un-overridden inherited ones followed by the custom ones, the fields come from the custom manifest when present, and the arguments are merged only when both manifests have them (corrected per Findings row 3) |
| VersionInfoParser.InheritedArgumentsFirst | ZalithLauncher/src/main/java/com/movtery/zalithlauncher/game/version/installed/VersionInfoParser.kt:66-101 | With both argument blocks present, the inherited game arguments come first and the inherited JVM arguments are kept |
| MCOptions.ParseLine | ZalithLauncher/src/main/java/com/movtery/zalithlauncher/game/launch/MCOptions.kt:59-62 | A line is an entry exactly when its first ':' is past index 0; the key is the non-empty, colon-free text before it |
| MCOptions.ParseLineSplits | ZalithLauncher/src/main/java/com/movtery/zalithlauncher/game/launch/MCOptions.kt:60-61 | An entry line is its key, a colon and its value |
| MCOptions.ParseEntry | ZalithLauncher/src/main/java/com/movtery/zalithlauncher/game/launch/MCOptions.kt:60-61 | A line written from a non-empty, colon-free key reads back as that key and value |
| MCOptions.Load | ZalithLauncher/src/main/java/com/movtery/zalithlauncher/game/launch/MCOptions.kt:57-63 | Every loaded key is non-empty and colon-free |
| MCOptions.LoadLastWins | ZalithLauncher/src/main/java/com/movtery/zalithlauncher/game/launch/MCOptions.kt:58-63 | A key is loaded exactly when some line carries it, and its value comes from the last such line |
| MCOptions.SaveLines | ZalithLauncher/src/main/java/com/movtery/zalithlauncher/game/launch/MCOptions.kt:115 | One "key:value" line per entry, in iteration order |
| MCOptions.LoadSaveLines | ZalithLauncher/src/main/java/com/movtery/zalithlauncher/game/launch/MCOptions.kt:115 | Loading the saved lines of a map with colon-free keys and newline-free text restores the map |
| MCOptions.SaveRoundTrip | ZalithLauncher/src/main/java/com/movtery/zalithlauncher/game/launch/MCOptions.kt:113-116 | Reading the saved text back, split at newlines, restores the map |
| MCOptions.GetAsList | ZalithLauncher/src/main/java/com/movtery/zalithlauncher/game/launch/MCOptions.kt:82-91 | An absent key, and content that is blank once the brackets are removed, give no items |
| MCOptions.ListRoundTrip | ZalithLauncher/src/main/java/com/movtery/zalithlauncher/game/launch/MCOptions.kt:76-91 | A list written with set(key, list) reads back as the same list when its items are non-empty, quote-free, do not end in a backslash, and have no surrounding whitespace |
| MCOptions.EmptyLists | ZalithLauncher/src/main/java/com/movtery/zalithlauncher/game/launch/MCOptions.kt:83-90 | "[]" and blank content both read as no items |
| MCOptions.DynamicScale | ZalithLauncher/src/main/java/com/movtery/zalithlauncher/game/launch/MCOptions.kt:131-134 | The largest scale at which a 320 by 240 screen per unit fits the window, and 1 when not even scale 2 fits |
| MCOptions.ScaleFits | ZalithLauncher/src/main/java/com/movtery/zalithlauncher/game/launch/MCOptions.kt:131-134 | A scale of at least 1 fits exactly when it is at most both the width over 320 and the height over 240 |
| MCOptions.McScale | ZalithLauncher/src/main/java/com/movtery/zalithlauncher/game/launch/MCOptions.kt:124-129 | The GUI scale never exceeds the dynamic scale |
| MCOptions.McScaleIsMin | ZalithLauncher/src/main/java/com/movtery/zalithlauncher/game/launch/MCOptions.kt:124-134 | With guiScale unset or 0 the scale is the dynamic one; otherwise the smaller of the two, and at least 1 for a non-negative guiScale |
| VersionInfo.LoaderPiece | ZalithLauncher/src/main/java/com/movtery/zalithlauncher/game/version/installed/VersionInfo.kt:22-28 | A loader adds nothing exactly when there is none or both its name and version are blank |
| VersionInfo.InfoString | ZalithLauncher/src/main/java/com/movtery/zalithlauncher/game/version/installed/VersionInfo.kt:19-31 | The summary starts with the Minecraft version, followed by ", " and the loader part when there is one |
| VersionInfo.InfoStringFull | ZalithLauncher/src/main/java/com/movtery/zalithlauncher/game/version/installed/VersionInfo.kt:24 | A loader with both a name and a version is shown as "mc, name - version" |
| VersionInfo.McVersionCodeOf | ZalithLauncher/src/main/java/com/movtery/zalithlauncher/game/version/installed/VersionInfo.kt:36-54 | Any 'w' gives (99, 99); a version that is not "pending" and does not start with "1." gives (0, 0); both parts stay at most 99 |
| VersionInfo.ReleaseCode | ZalithLauncher/src/main/java/com/movtery/zalithlauncher/game/version/installed/VersionInfo.kt:43-48 | A release "1.x.y" with x and y below 100 gets the code (x, y) |
| VersionInfo.LoaderEnvKey | ZalithLauncher/src/main/java/com/movtery/zalithlauncher/game/version/installed/VersionInfo.kt:73-83 | The six known loader names map to INST_ keys and every other name to null |
| VersionInfo.LoaderEnvKeyInjective | ZalithLauncher/src/main/java/com/movtery/zalithlauncher/game/version/installed/VersionInfo.kt:73-83 | Different loaders never share a key |
| VersionInfo.LoaderEnv | ZalithLauncher/src/main/java/com/movtery/zalithlauncher/game/launch/GameLauncher.kt:82-84 | The loader's key is set to "1" when the version has a known loader; every other variable is kept and nothing else is added |
| VersionInfoUtils.Coordinates | ZalithLauncher/src/main/java/com/movtery/zalithlauncher/game/version/installed/utils/VersionInfoUtils.kt:87-89 | A library name without ':' cannot be read; otherwise group and artifact are the colon-free first two parts |
| VersionInfoUtils.MinecraftLibraryVersion | ZalithLauncher/src/main/java/com/movtery/zalithlauncher/game/version/installed/utils/VersionInfoUtils.kt:86-93 | The version found is that of some net.minecraft client or server library; nothing is found exactly when there is none |
| VersionInfoUtils.ExtractMinecraftVersion | ZalithLauncher/src/main/java/com/movtery/zalithlauncher/game/version/installed/utils/VersionInfoUtils.kt:73-85 | The first patch's version wins over everything else |
| VersionInfoUtils.LibraryTierFound | ZalithLauncher/src/main/java/com/movtery/zalithlauncher/game/version/installed/utils/VersionInfoUtils.kt:86-93 | With no patch version, the first library that names Minecraft gives its version when only plain libraries come before it |
| VersionInfoUtils.LibraryTierMalformed | ZalithLauncher/src/main/java/com/movtery/zalithlauncher/game/version/installed/utils/VersionInfoUtils.kt:86-93 | With no patch version, a malformed library name met before any Minecraft library gives no version |
| VersionInfoUtils.VersionFallbacks | ZalithLauncher/src/main/java/com/movtery/zalithlauncher/game/version/installed/utils/VersionInfoUtils.kt:95-98 | Without a patch version or a Minecraft library the version is inheritsFrom, else what the id detectors find, else the id itself |
| VersionInfoUtils.ClientLibraryVersion | ZalithLauncher/src/main/java/com/movtery/zalithlauncher/game/version/installed/utils/VersionInfoUtils.kt:86-93 | A client library behind libraries that are not Minecraft's gives its own version |
| VersionInfoUtils.ForgeNewStyle | ZalithLauncher/src/main/java/com/movtery/zalithlauncher/game/version/installed/utils/VersionInfoUtils.kt:121 | A Forge library version "mc-forge" yields "forge" |
| VersionInfoUtils.ForgeOldStyle | ZalithLauncher/src/main/java/com/movtery/zalithlauncher/game/version/installed/utils/VersionInfoUtils.kt:123-127 | A Forge library version "mc-forge-mc" yields the middle part |
| VersionInfoUtils.FindAfter | ZalithLauncher/src/main/java/com/movtery/zalithlauncher/game/version/installed/utils/VersionInfoUtils.kt:164-167 | The result is the element right after the first occurrence of the flag that has a successor; none exactly when no such occurrence exists |
| VersionInfoUtils.LoaderOfLibrary | ZalithLauncher/src/main/java/com/movtery/zalithlauncher/game/version/installed/utils/VersionInfoUtils.kt:112-154 | A library stands for at most one of the six known loaders |
| VersionInfoUtils.ScanLoader | ZalithLauncher/src/main/java/com/movtery/zalithlauncher/game/version/installed/utils/VersionInfoUtils.kt:105-158 | The loader found belongs to a library with no loader library before it; nothing is found exactly when no library is a loader |
| VersionInfoUtils.DetectModLoader | ZalithLauncher/src/main/java/com/movtery/zalithlauncher/game/version/installed/utils/VersionInfoUtils.kt:105-106 | A version JSON without libraries has no loader |
| VersionInfoUtils.ParseJson | ZalithLauncher/src/main/java/com/movtery/zalithlauncher/game/version/installed/utils/VersionInfoUtils.kt:52-71 | The info exists exactly when both the Minecraft version and the loader could be read, and carries both |
| VersionInfoUtils.NeoForgeFromArguments | ZalithLauncher/src/main/java/com/movtery/zalithlauncher/game/version/installed/utils/VersionInfoUtils.kt:135-141 | A NeoForge loader takes its version from the argument after "--fml.neoForgeVersion" |
| BuildNumber.Parse | ZalithLauncher/src/main/java/com/movtery/zalithlauncher/game/addons/modloader/forgelike/ForgeBuildVersion.kt:12-20 | Every parsed build number has four non-negative Int components |
| BuildNumber.ParseToString | ZalithLauncher/src/main/java/com/movtery/zalithlauncher/game/addons/modloader/forgelike/ForgeBuildVersion.kt:12-43 | Printing a parsed build number and parsing it again gives it back |
| BuildNumber.ParseDotted | ZalithLauncher/src/main/java/com/movtery/zalithlauncher/game/addons/modloader/forgelike/ForgeBuildVersion.kt:12-20 | Non-negative numbers joined by '.' parse as those numbers, missing ones 0 |
| BuildNumber.ParseSkipsWord | ZalithLauncher/src/main/java/com/movtery/zalithlauncher/game/addons/modloader/forgelike/ForgeBuildVersion.kt:13 | A segment that is not an Int is skipped |
| BuildNumber.ParseIgnoresTail | ZalithLauncher/src/main/java/com/movtery/zalithlauncher/game/addons/modloader/forgelike/ForgeBuildVersion.kt:13-19 | Only the first four numbers count, so a tag after a complete build number is ignored |
| BuildNumber.NumbersOfTexts | ZalithLauncher/src/main/java/com/movtery/zalithlauncher/game/addons/modloader/forgelike/ForgeBuildVersion.kt:13 | Reading the texts of Ints gives the numbers back |
| BuildNumber.Compare | ZalithLauncher/src/main/java/com/movtery/zalithlauncher/game/addons/modloader/forgelike/ForgeBuildVersion.kt:31-39 | The comparison is -1, 0 or 1 and is 0 exactly for equal build numbers |
| BuildNumber.CompareLexicographic | ZalithLauncher/src/main/java/com/movtery/zalithlauncher/game/addons/modloader/forgelike/ForgeBuildVersion.kt:31-39 | The order is the segment-wise order of dotted versions applied to the four components |
| BuildNumber.CompareTotalOrder | ZalithLauncher/src/main/java/com/movtery/zalithlauncher/game/addons/modloader/forgelike/ForgeBuildVersion.kt:31-39 | The order is antisymmetric and transitive |
| BuildNumber.OptiFineRequirement | ZalithLauncher/src/main/java/com/movtery/zalithlauncher/game/addons/modloader/forgelike/ForgeBuildVersion.kt:23-29 | A dotted requirement matches when it compares equal to the printed build number; an undotted one only when it is the revision |
| BuildNumber.OptiFineOwnVersion | ZalithLauncher/src/main/java/com/movtery/zalithlauncher/game/addons/modloader/forgelike/ForgeBuildVersion.kt:23-29 | A build number meets its own printed form and its own revision |
| BuildNumber.PrintedParts | ZalithLauncher/src/main/java/com/movtery/zalithlauncher/game/addons/modloader/forgelike/Version.kt:31-33 | The printed form reads back, segment by segment, as the four components |
| ForgeVersion.ModifiedBranch | ZalithLauncher/src/main/java/com/movtery/zalithlauncher/game/addons/modloader/forgelike/forge/ForgeVersion.kt:33-39 | No branch can be chosen only for a branchless 1.7.10 entry outside the three 1.8.9 builds |
| ForgeVersion.BuildOf | ZalithLauncher/src/main/java/com/movtery/zalithlauncher/game/addons/modloader/forgelike/forge/ForgeVersion.kt:33-41 | A build number exists exactly when the branch could be chosen, and it is well formed |
| ForgeVersion.SpecialBranch | ZalithLauncher/src/main/java/com/movtery/zalithlauncher/game/addons/modloader/forgelike/forge/ForgeVersion.kt:34-36 | The three listed builds are parsed with the 1.8.9 branch whatever they were listed with |
| ForgeVersion.LegacyBranch | ZalithLauncher/src/main/java/com/movtery/zalithlauncher/game/addons/modloader/forgelike/forge/ForgeVersion.kt:37 | A branchless 1.7.10 build gets the 1.7.10 branch exactly when its fourth segment is at least 1300 |
| ForgeVersion.BranchOnlyPads | ZalithLauncher/src/main/java/com/movtery/zalithlauncher/game/addons/modloader/forgelike/forge/ForgeVersion.kt:40 | A version with four numbers parses the same whatever branch is appended |
| ForgeVersion.FileExtension | ZalithLauncher/src/main/java/com/movtery/zalithlauncher/game/addons/modloader/forgelike/forge/ForgeVersion.kt:27 | Installers are jars, every other category a zip |
| NeoForgeVersion.ParseVersion | ZalithLauncher/src/main/java/com/movtery/zalithlauncher/game/addons/modloader/forgelike/neoforge/NeoForgeVersion.kt:28-36 | Every entry has a well-formed build number |
| NeoForgeVersion.VersionName | ZalithLauncher/src/main/java/com/movtery/zalithlauncher/game/addons/modloader/forgelike/neoforge/NeoForgeVersion.kt:38-44 | Outside the 1.20.1 line the name is the raw version; it is never longer |
| NeoForgeVersion.Inherit | ZalithLauncher/src/main/java/com/movtery/zalithlauncher/game/addons/modloader/forgelike/neoforge/NeoForgeVersion.kt:46-56 | The Minecraft version always starts with "1." |
| NeoForgeVersion.BaseUrl | ZalithLauncher/src/main/java/com/movtery/zalithlauncher/game/addons/modloader/forgelike/neoforge/NeoForgeVersion.kt:18-22 | The URL lies in the release directory of the package and raw version and ends with the file stem |
| NeoForgeVersion.LegacyEntry | ZalithLauncher/src/main/java/com/movtery/zalithlauncher/game/addons/modloader/forgelike/neoforge/NeoForgeVersion.kt:28-56 | A 1.20.1 entry "1.20.1-rest" is named "rest", numbered as "19.rest" and is for 1.20.1 |
| NeoForgeVersion.ModernEntry | ZalithLauncher/src/main/java/com/movtery/zalithlauncher/game/addons/modloader/forgelike/neoforge/NeoForgeVersion.kt:34 | A later entry "a.b.c-tag" is numbered a.b.c.0 |
| NeoForgeVersion.InheritMatchesNumber | ZalithLauncher/src/main/java/com/movtery/zalithlauncher/game/addons/modloader/forgelike/neoforge/NeoForgeVersion.kt:46-56 | The Minecraft version reads back as 1.major.minor of the entry's number |
| OptiFineVersions.VersionName | ZalithLauncher/src/main/java/com/movtery/zalithlauncher/game/addons/modloader/optifine/OptiFineVersions.kt:86-92 | The installed version name starts with the Minecraft version and '-' |
| OptiFineVersions.FormatDate | ZalithLauncher/src/main/java/com/movtery/zalithlauncher/game/addons/modloader/optifine/OptiFineVersions.kt:94-96 | A date that is not three dot-separated parts is kept as it is |
| OptiFineVersions.DateReordered | ZalithLauncher/src/main/java/com/movtery/zalithlauncher/game/addons/modloader/optifine/OptiFineVersions.kt:95-96 | "d.m.y" is shown as "y/m/d" |
| OptiFineVersions.ForgeRequirement | ZalithLauncher/src/main/java/com/movtery/zalithlauncher/game/addons/modloader/optifine/OptiFineVersions.kt:98-103 | An entry needs no Forge exactly when the column says "N/A"; a requirement never holds '#' |
| OptiFineVersions.ForgeBuildRequired | ZalithLauncher/src/main/java/com/movtery/zalithlauncher/game/addons/modloader/optifine/OptiFineVersions.kt:99-103 | "Forge #n" requires Forge build n |
| OptiFineVersions.Row | ZalithLauncher/src/main/java/com/movtery/zalithlauncher/game/addons/modloader/optifine/OptiFineVersions.kt:73-92 | A row is a preview exactly when its jar starts with "preview_", and its version name begins with its Minecraft version |
| OptiFineVersions.FileNameRestoresJar | ZalithLauncher/src/main/java/com/movtery/zalithlauncher/game/addons/modloader/optifine/OptiFineVersions.kt:73-84 | The file to download is the jar the page links to |
| OptiFineVersions.ReleaseDisplayName | ZalithLauncher/src/main/java/com/movtery/zalithlauncher/game/addons/modloader/optifine/OptiFineVersions.kt:74-81 | A release jar "OptiFine_mc_HD_U_ed" is shown as "mc ed" |
| OptiFineVersions.ReleaseVersionName | ZalithLauncher/src/main/java/com/movtery/zalithlauncher/game/addons/modloader/optifine/OptiFineVersions.kt:86-92 | A release is installed as "mc-OptiFine_HD_U_ed" |
| OptiFineVersions.ReleaseRow | ZalithLauncher/src/main/java/com/movtery/zalithlauncher/game/addons/modloader/optifine/OptiFineVersions.kt:73-103 | A release row is shown as "mc ed", is for Minecraft mc, is installed as "mc-OptiFine_HD_U_ed", downloads the linked jar and is no preview |
| OptiFineVersions.FetchList | ZalithLauncher/src/main/java/com/movtery/zalithlauncher/game/addons/modloader/optifine/OptiFineVersions.kt:51-67 | A page under 100 characters and columns of unequal length are errors; otherwise one entry per row, in page order |
| AddonSelection.OptiFineFitsForgeCases | ZalithLauncher/src/main/java/com/movtery/zalithlauncher/ui/screens/content/download/game/DownloadGameWithAddonScreen.kt:646-660 | No requirement fits nothing, a blank one fits every build, a dotted one names the whole build and an undotted one its revision |
| AddonSelection.UndottedRequirementAsWritten | ZalithLauncher/src/main/java/com/movtery/zalithlauncher/ui/screens/content/download/game/DownloadGameWithAddonScreen.kt:441 | An OptiFine build needing "Forge #n" fits a Forge build with revision n, yet the Forge list filter hides that build |
| AddonSelection.MeetsAgrees | ZalithLauncher/src/main/java/com/movtery/zalithlauncher/ui/screens/content/download/game/DownloadGameWithAddonScreen.kt:438-442 | With the corrected list test, the list filter and the pair test agree on every trimmed requirement |
| AddonSelection.OptiFineListAgrees | ZalithLauncher/src/main/java/com/movtery/zalithlauncher/ui/screens/content/download/game/DownloadGameWithAddonScreen.kt:662-673 | An OptiFine build fits a loaded Forge list exactly when it fits one of its builds (corrected per Findings row 4) |
| AddonSelection.ForgeFitsOptiFineFrom | ZalithLauncher/src/main/java/com/movtery/zalithlauncher/ui/screens/content/download/game/DownloadGameWithAddonScreen.kt:675-688 | A Forge build fits the rest of an OptiFine list exactly when some entry there names it or asks for nothing (corrected per Findings row 4) |
| AddonSelection.ForgeFitsOptiFineList | ZalithLauncher/src/main/java/com/movtery/zalithlauncher/ui/screens/content/download/game/DownloadGameWithAddonScreen.kt:675-688 | An unloaded OptiFine list fits no Forge build |
| AddonSelection.ForgeListAgrees | ZalithLauncher/src/main/java/com/movtery/zalithlauncher/ui/screens/content/download/game/DownloadGameWithAddonScreen.kt:675-688 | A Forge build fits an OptiFine list exactly when some entry's pair test accepts it (corrected per Findings row 4) |
| AddonSelection.ShownOptiFines | ZalithLauncher/src/main/java/com/movtery/zalithlauncher/ui/screens/content/download/game/DownloadGameWithAddonScreen.kt:357-369 | The OptiFine list shows exactly the entries the chosen Forge build allows (corrected per Findings row 4) |
| AddonSelection.ShownForges | ZalithLauncher/src/main/java/com/movtery/zalithlauncher/ui/screens/content/download/game/DownloadGameWithAddonScreen.kt:433-449 | The Forge list shows nothing when it holds a universal or client build, otherwise exactly the builds the chosen OptiFine allows (corrected per Findings row 4) |
| AddonSelection.ShownOptiFinesFit | ZalithLauncher/src/main/java/com/movtery/zalithlauncher/ui/screens/content/download/game/DownloadGameWithAddonScreen.kt:357-369 | With a Forge build chosen, the OptiFine list shows exactly the entries that fit it (corrected per Findings row 4) |
| AddonSelection.AllAddons | ZalithLauncher/src/main/java/com/movtery/zalithlauncher/ui/screens/content/download/game/DownloadGameWithAddonScreen.kt:117-125 | The chosen versions, each exactly once, in screen order |
| AddonSelection.ClearAddon | ZalithLauncher/src/main/java/com/movtery/zalithlauncher/ui/screens/content/download/game/DownloadGameWithAddonScreen.kt:374-382 | Clearing a list drops its choice and its marks on every other list, and nothing else |
| AddonSelection.PickExclusive | ZalithLauncher/src/main/java/com/movtery/zalithlauncher/ui/screens/content/download/game/DownloadGameWithAddonScreen.kt:516-534 | Choosing NeoForge, Fabric or Quilt leaves it the only choice and marks every other list |
| AddonSelection.PickOptiFine | ZalithLauncher/src/main/java/com/movtery/zalithlauncher/ui/screens/content/download/game/DownloadGameWithAddonScreen.kt:374-407 | Choosing OptiFine keeps Forge only when it fits, marks Forge exactly when it does not and marks the three exclusive loaders (corrected per Findings row 4) |
| AddonSelection.ForgeFitsOptiFineFromAsWritten | ZalithLauncher/src/main/java/com/movtery/zalithlauncher/ui/screens/content/download/game/DownloadGameWithAddonScreen.kt:675-688 | As written: a Forge build fits the rest of an OptiFine list exactly when some entry there asks for nothing or compares equal to its printed build number under compareClassVersions |
| AddonSelection.PickForgeAsWritten | ZalithLauncher/src/main/java/com/movtery/zalithlauncher/ui/screens/content/download/game/DownloadGameWithAddonScreen.kt:452-485 | Forge's handler as written, with the compareClassVersions list test: the build is chosen, OptiFine stays only when it fits, the three exclusive loaders are dropped and marked, a misfit marks the OptiFine list, and a fit with no OptiFine chosen takes Forge off the Forge list's own marks and leaves the OptiFine list's marks as they were |
| AddonSelection.RevisionRequirementMarksAsWritten | ZalithLauncher/src/main/java/com/movtery/zalithlauncher/ui/screens/content/download/game/DownloadGameWithAddonScreen.kt:470-476 | With no OptiFine chosen and a loaded list whose only entry asks for the build's revision, the handler as written marks the OptiFine list while the corrected one does not |
| AddonSelection.StaleForgeMarkAsWritten | ZalithLauncher/src/main/java/com/movtery/zalithlauncher/ui/screens/content/download/game/DownloadGameWithAddonScreen.kt:471-472 | A Forge build chosen before the OptiFine list loaded leaves an OptiFine mark on the Forge list that the next fitting choice does not remove |
| AddonSelection.PickForge | ZalithLauncher/src/main/java/com/movtery/zalithlauncher/ui/screens/content/download/game/DownloadGameWithAddonScreen.kt:452-485 | Choosing Forge keeps OptiFine only when it fits, marks OptiFine exactly when it does not and marks the three exclusive loaders (corrected per Findings rows 1 and 4) |
| AddonSelection.Settle | ZalithLauncher/src/main/java/com/movtery/zalithlauncher/ui/screens/content/download/game/DownloadGameElements.kt:163-172 | Every marked list loses its choice and stops marking the others; unmarked lists keep theirs |
| AddonSelection.ConsistentCoexistence | ZalithLauncher/src/main/java/com/movtery/zalithlauncher/ui/screens/content/download/game/DownloadGameWithAddonScreen.kt:374-634 | In a consistent state only OptiFine and Forge are ever chosen together |
| AddonSelection.SettleConsistent | ZalithLauncher/src/main/java/com/movtery/zalithlauncher/ui/screens/content/download/game/DownloadGameElements.kt:169-172 | Clearing the marked lists restores consistency after any choice that leaves the marks the handlers set |
| AddonSelection.HandleSettles | ZalithLauncher/src/main/java/com/movtery/zalithlauncher/ui/screens/content/download/game/DownloadGameWithAddonScreen.kt:374-634 | Every handler of an open list leaves marks that clearing turns into a consistent state (corrected per Findings rows 1 and 4) |
| AddonSelection.StepConsistent | ZalithLauncher/src/main/java/com/movtery/zalithlauncher/ui/screens/content/download/game/DownloadGameElements.kt:180-185 | A step of the screen keeps it consistent; a marked list cannot be opened (corrected per Findings rows 1 and 4) |
| AddonSelection.RunConsistent | ZalithLauncher/src/main/java/com/movtery/zalithlauncher/ui/screens/content/download/game/DownloadGameWithAddonScreen.kt:374-634 | Every state reachable from a consistent one is consistent (corrected per Findings rows 1 and 4) |
| VersionFilterScreen.FilterVersions | ZalithLauncher/src/main/java/com/movtery/zalithlauncher/ui/screens/content/download/game/SelectGameVersionScreen.kt:177-188 | The result holds exactly the versions the switches and the search text admit, never more than the list |
| VersionFilterScreen.FilterKeepsCounts | ZalithLauncher/src/main/java/com/movtery/zalithlauncher/ui/screens/content/download/game/SelectGameVersionScreen.kt:177-188 | A shown version is kept as many times as the list holds it, a hidden one never |
| VersionFilterScreen.FilterKeepsOrder | ZalithLauncher/src/main/java/com/movtery/zalithlauncher/ui/screens/content/download/game/SelectGameVersionScreen.kt:179 | The filtered list keeps the order of the original |
| VersionFilterScreen.FilterCases | ZalithLauncher/src/main/java/com/movtery/zalithlauncher/ui/screens/content/download/game/SelectGameVersionScreen.kt:180-187 | Release and snapshot follow their switches; other types need the "old" switch and an "old" prefix; a blank search admits every id and any other search needs it as a substring |
| LocalAccountDialog.FirstIllegal | ZalithLauncher/src/main/java/com/movtery/zalithlauncher/ui/screens/content/AccountManageScreen.kt:74 | The position of the first character outside letters, digits and '_', or -1 when there is none |
| LocalAccountDialog.CheckCases | ZalithLauncher/src/main/java/com/movtery/zalithlauncher/ui/screens/content/AccountManageScreen.kt:228-236 | No message exactly for 3 to 16 UTF-16 units of legal name characters; the empty, too-short, too-long and illegal-character messages each exactly in their own case |
| LocalAccountDialog.NineEmojiTooLong | ZalithLauncher/src/main/java/com/movtery/zalithlauncher/ui/screens/content/AccountManageScreen.kt:228-236 | Nine characters outside the basic plane count as eighteen units and get the too-long message |
| LocalAccountDialog.Act | ZalithLauncher/src/main/java/com/movtery/zalithlauncher/ui/screens/content/AccountManageScreen.kt:224-264 | Typing stores the trimmed text; confirming logs in exactly a valid name and raises the alert for any other non-empty one; the alert's confirm logs in the name as it is |
| LocalAccountDialog.EmptyConfirmDoesNothing | ZalithLauncher/src/main/java/com/movtery/zalithlauncher/ui/screens/content/AccountManageScreen.kt:244 | Confirming an empty name changes nothing and logs nobody in |
| LocalAccountDialog.InvalidNeedsSecondConfirm | ZalithLauncher/src/main/java/com/movtery/zalithlauncher/ui/screens/content/AccountManageScreen.kt:245-263 | An invalid name is logged in only after the alert is confirmed |
| InvalidFilename.WithCharacters | ZalithLauncher/src/main/java/com/movtery/zalithlauncher/utils/file/InvalidFilenameException.java:8-12 | The exception built from characters reports illegal characters only, with the characters given and length -1 |
| InvalidFilename.WithLength | ZalithLauncher/src/main/java/com/movtery/zalithlauncher/utils/file/InvalidFilenameException.java:14-18 | The exception built from a length reports an invalid length only, with that length and no characters |
| FileUtils.IllegalIn | ZalithLauncher/src/main/java/com/movtery/zalithlauncher/utils/file/FileUtils.kt:63-68 | The illegal characters of the name, each once and in order of first appearance: exactly those of the set that occur |
| FileUtils.CheckFilenameValidity | ZalithLauncher/src/main/java/com/movtery/zalithlauncher/utils/file/FileUtils.kt:61-77 | A character error lists the name's illegal characters; a length error carries the name's length in UTF-16 units |
| FileUtils.CheckFilenameCases | ZalithLauncher/src/main/java/com/movtery/zalithlauncher/utils/file/FileUtils.kt:70-76 | A name fails for its characters exactly when it holds an illegal one, for its length exactly when it holds none and is over 255 UTF-16 units, and passes otherwise |
| FileUtils.EmojiNameTooLong | ZalithLauncher/src/main/java/com/movtery/zalithlauncher/utils/file/FileUtils.kt:70-76 | 128 characters outside the basic plane are 256 units and fail for length |
| FileUtils.SortWithFileName | ZalithLauncher/src/main/java/com/movtery/zalithlauncher/utils/file/FileUtils.kt:48-57 | Directories come before files; entries of the same kind follow the name order |
| FileUtils.SortedListsDirectoriesFirst | ZalithLauncher/src/main/java/com/movtery/zalithlauncher/utils/file/FileUtils.kt:52-56 | In a list sorted by the comparator no file precedes a directory, and entries of one kind are in name order |
| FileUtils.SortAntisymmetric | ZalithLauncher/src/main/java/com/movtery/zalithlauncher/utils/file/FileUtils.kt:48-57 | The comparator is antisymmetric whenever the name order is |
| GamePathManager.IndexOfId | ZalithLauncher/src/main/java/com/movtery/zalithlauncher/game/path/GamePathManager.kt:98 | The position of the first entry with the id, or -1 exactly when no entry has it |
| GamePathManager.Refresh | ZalithLauncher/src/main/java/com/movtery/zalithlauncher/game/path/GamePathManager.kt:156-163 | A listed stored id selects its entry's path; an unlisted one falls back to the default entry when permitted; it fails exactly when the stored id is unlisted and either permission or the default entry is missing, with NoPermission or NotFound respectively |
| GamePathManager.Reload | ZalithLauncher/src/main/java/com/movtery/zalithlauncher/game/path/GamePathManager.kt:44-68 | The default entry comes first, followed by the saved entries; without permission the default path is selected |
| GamePathManager.ReloadSucceeds | ZalithLauncher/src/main/java/com/movtery/zalithlauncher/game/path/GamePathManager.kt:44-68 | Reloading never fails, whatever the permission: the default entry it puts first is always there to fall back on |
| GamePathManager.ModifyTitle | ZalithLauncher/src/main/java/com/movtery/zalithlauncher/game/path/GamePathManager.kt:95-105 | Unknown ids and the default entry at index 0 are refused; otherwise only that entry's title changes |
| GamePathManager.GenerateId | ZalithLauncher/src/main/java/com/movtery/zalithlauncher/game/path/GamePathManager.kt:165-169 | The id drawn is a candidate no entry has; none is drawn only when every candidate is taken |
| GamePathManager.AddNewPath | ZalithLauncher/src/main/java/com/movtery/zalithlauncher/game/path/GamePathManager.kt:111-117 | A path already listed is refused; otherwise the entry is appended and the selection is kept |
| GamePathManager.RemovePath | ZalithLauncher/src/main/java/com/movtery/zalithlauncher/game/path/GamePathManager.kt:122-130 | An unknown id changes nothing; otherwise the first entry with the id is taken out of the list whether or not the refresh then fails, the error coming back with the shortened list exactly when the selected entry is gone and either permission or the default entry is missing |
| GamePathManager.RemoveSelectedUnpermitted | ZalithLauncher/src/main/java/com/movtery/zalithlauncher/game/path/GamePathManager.kt:122-130 | Removing the selected entry without storage permission fails in the refresh, yet the list is left holding only the default entry |
| GamePathManager.RemoveOnlyThatEntry | ZalithLauncher/src/main/java/com/movtery/zalithlauncher/game/path/GamePathManager.kt:124-127 | Removal takes out exactly the first entry with the id and keeps the rest in order |
| GamePathManager.AddThenRemove | ZalithLauncher/src/main/java/com/movtery/zalithlauncher/game/path/GamePathManager.kt:111-130 | Adding a path under a fresh id and removing that id restores the list |
| GamePathManager.SaveCurrentPath | ZalithLauncher/src/main/java/com/movtery/zalithlauncher/game/path/GamePathManager.kt:144-154 | Without permission or for an unknown id it fails; otherwise the id is selected, and choosing the current id again changes nothing |
| GamePathManager.SavedConfig | ZalithLauncher/src/main/java/com/movtery/zalithlauncher/game/path/GamePathManager.kt:180-182 | Every entry but the default one is saved |
| GamePathManager.SaveReloadRoundTrip | ZalithLauncher/src/main/java/com/movtery/zalithlauncher/game/path/GamePathManager.kt:44-182 | Saving a list headed by the default entry and reloading it gives the same list |
| FavoritesVersionUtils.Modify | ZalithLauncher/src/main/java/com/movtery/zalithlauncher/game/version/installed/favorites/FavoritesVersionUtils.kt:8-13 | A change applies only when there is game information |
| FavoritesVersionUtils.Rename | ZalithLauncher/src/main/java/com/movtery/zalithlauncher/game/version/installed/favorites/FavoritesVersionUtils.kt:18-25 | Every folder holding the old name holds the new one instead; other folders are unchanged |
| FavoritesVersionUtils.RenameBack | ZalithLauncher/src/main/java/com/movtery/zalithlauncher/game/version/installed/favorites/FavoritesVersionUtils.kt:18-25 | Renaming to a name no folder holds, and back, restores the folders |
| FavoritesVersionUtils.AddFolder | ZalithLauncher/src/main/java/com/movtery/zalithlauncher/game/version/installed/favorites/FavoritesVersionUtils.kt:30-32 | The folder exists afterwards, starting empty when it is new; existing folders are untouched |
| FavoritesVersionUtils.RemoveFolder | ZalithLauncher/src/main/java/com/movtery/zalithlauncher/game/version/installed/favorites/FavoritesVersionUtils.kt:37-39 | Only that folder disappears |
| FavoritesVersionUtils.AddThenRemove | ZalithLauncher/src/main/java/com/movtery/zalithlauncher/game/version/installed/favorites/FavoritesVersionUtils.kt:30-39 | Adding a new folder and removing it restores the folders |
| FavoritesVersionUtils.UpdateVersionFolders | ZalithLauncher/src/main/java/com/movtery/zalithlauncher/game/version/installed/favorites/FavoritesVersionUtils.kt:46-56 | The folders afterwards are the old ones plus the targets |
| FavoritesVersionUtils.UpdateExact | ZalithLauncher/src/main/java/com/movtery/zalithlauncher/game/version/installed/favorites/FavoritesVersionUtils.kt:46-56 | The version is in exactly the target folders, and every other version keeps its folders |
| FavoritesVersionUtils.ValidVersions | ZalithLauncher/src/main/java/com/movtery/zalithlauncher/game/version/installed/favorites/FavoritesVersionUtils.kt:69-73 | The versions of the folder that exist, and nothing when there is no game information or no such folder |
| NetWorks.DelayAt | ZalithLauncher/src/main/java/com/movtery/zalithlauncher/utils/network/NetWorks.kt:27 | Every wait after the first is capped at the maximum delay |
| NetWorks.WithRetry | ZalithLauncher/src/main/java/com/movtery/zalithlauncher/utils/network/NetWorks.kt:9-35 | The block runs at most maxRetries times; every run before the last failed retryably; the outcome is the last run's value, its non-retryable failure, or the last failure once the retries are used up; one wait follows each retryable failure |
| NetWorks.DelaysGrowToCap | ZalithLauncher/src/main/java/com/movtery/zalithlauncher/utils/network/NetWorks.kt:26-27 | Starting below the cap, the waits never shrink and never pass the cap |
| MinecraftDownloader.ScheduleAllCounts | ZalithLauncher/src/main/java/com/movtery/zalithlauncher/game/version/download/MinecraftDownloader.kt:312-316 | Scheduling counts every request once, adds every size to the total and queues the tasks in order behind the earlier ones |
| MinecraftDownloader.ClientJarRequests | ZalithLauncher/src/main/java/com/movtery/zalithlauncher/game/version/download/MinecraftDownloader.kt:257-262 | The client jar is fetched exactly when the manifest lists it, into versions/v/v.jar with the listed hash |
| MinecraftDownloader.HashedPath | ZalithLauncher/src/main/java/com/movtery/zalithlauncher/game/version/download/MinecraftDownloader.kt:267 | The hashed path is the first two hash characters, '/', and the hash; a hash shorter than two characters has none |
| MinecraftDownloader.AssetRequest | ZalithLauncher/src/main/java/com/movtery/zalithlauncher/game/version/download/MinecraftDownloader.kt:266-275 | An asset can be scheduled exactly when its hash has at least two characters |
| MinecraftDownloader.AssetRequestsInOrder | ZalithLauncher/src/main/java/com/movtery/zalithlauncher/game/version/download/MinecraftDownloader.kt:265-276 | The assets are scheduled one request each, in index order, exactly when every hash is long enough |
| MinecraftDownloader.AssetPlacement | ZalithLauncher/src/main/java/com/movtery/zalithlauncher/game/version/download/MinecraftDownloader.kt:267-274 | An asset is fetched from the resource server by its hashed path and lands at its logical path when the index is virtual or mapped to resources, else under objects/ |
| MinecraftDownloader.LibraryRequest | ZalithLauncher/src/main/java/com/movtery/zalithlauncher/game/version/download/MinecraftDownloader.kt:282-297 | LWJGL, pathless libraries and download entries without an artifact are skipped; a library without downloads is fetched from its repository in https form or the Minecraft library server |
| MinecraftDownloader.RequestsOf | ZalithLauncher/src/main/java/com/movtery/zalithlauncher/game/version/download/MinecraftDownloader.kt:282-297 | Exactly the requests of the libraries that have one, never more than the libraries |
| MinecraftDownloader.LibrariesScheduled | ZalithLauncher/src/main/java/com/movtery/zalithlauncher/game/version/download/MinecraftDownloader.kt:279-299 | Every fetched library is one of the manifest's after its Android rewrite, and none is LWJGL (corrected per Findings row 3) |
| MinecraftDownloader.VersionRequests | ZalithLauncher/src/main/java/com/movtery/zalithlauncher/game/version/download/MinecraftDownloader.kt:195-199 | A version's downloads can be planned exactly when its asset hashes are well formed |
| MinecraftDownloader.PlanDownloads | ZalithLauncher/src/main/java/com/movtery/zalithlauncher/game/version/download/MinecraftDownloader.kt:188-208 | For an uncustomised name the plan is that version's downloads alone |
| MinecraftDownloader.BaseVersionPlanned | ZalithLauncher/src/main/java/com/movtery/zalithlauncher/game/version/download/MinecraftDownloader.kt:202-207 | With a custom name the base version's client jar is planned too, into the base version's own folder |
| MinecraftDownloader.CheckExistingCases | ZalithLauncher/src/main/java/com/movtery/zalithlauncher/game/version/download/MinecraftDownloader.kt:354-364 | A file is skipped exactly when it has a hash, exists, and verification is off or the hash matches; it is deleted exactly when verification is on and the hash differs |
| GameHandler.PackFormat | ZalithLauncher/src/main/java/com/movtery/zalithlauncher/game/launch/handler/GameHandler.kt:122-134 | The pack format lies between 1 and 17, and is 17 for every main code from 21 on or below 6 |
| GameHandler.PackFormatMonotone | ZalithLauncher/src/main/java/com/movtery/zalithlauncher/game/launch/handler/GameHandler.kt:122-134 | From 1.6 on, a later version never gets a smaller pack format |
| GameHandler.OldLayoutBefore1193 | ZalithLauncher/src/main/java/com/movtery/zalithlauncher/game/launch/handler/GameHandler.kt:136-140 | The old skin layout is used exactly for versions before 1.19.3 |
| GameHandler.PackEntryName | ZalithLauncher/src/main/java/com/movtery/zalithlauncher/game/launch/handler/GameHandler.kt:148 | The list entry ends with the resource pack's file name and carries the 5-character "file/" prefix exactly for main codes from 13 on or below 6 |
| GameHandler.ModelNamed | ZalithLauncher/src/main/java/com/movtery/zalithlauncher/game/launch/handler/GameHandler.kt:113 | "ALEX" and "STEVE" name the two skin models, and only they do |
| GameHandler.SkinTargets | ZalithLauncher/src/main/java/com/movtery/zalithlauncher/game/launch/handler/GameHandler.kt:196-209 | The old layout writes one skin file and the new one a file per player skin, all PNG files under textures/entity |
| GameHandler.NewLayoutDistinct | ZalithLauncher/src/main/java/com/movtery/zalithlauncher/game/launch/handler/GameHandler.kt:203-208 | The new layout writes nine different files |
| GameHandler.PlanSkinPack | ZalithLauncher/src/main/java/com/movtery/zalithlauncher/game/launch/handler/GameHandler.kt:107-147 | A pack is built exactly for a local account with a skin file and a known model on a version whose main code is not 0 to 5, with the format and layout of that version |
| GameHandler.FirstIndex | ZalithLauncher/src/main/java/com/movtery/zalithlauncher/game/launch/handler/GameHandler.kt:159 | The index of the first occurrence |
| GameHandler.InsertPack | ZalithLauncher/src/main/java/com/movtery/zalithlauncher/game/launch/handler/GameHandler.kt:153-162 | The pack ends up in the list; a list already holding it is unchanged; nothing but the pack and a missing "vanilla" is added |
| GameHandler.InsertPackPlacement | ZalithLauncher/src/main/java/com/movtery/zalithlauncher/game/launch/handler/GameHandler.kt:154-161 | A new pack lands directly after the first "vanilla", and removing it gives the list with "vanilla" ensured |
| GameHandler.InsertPackIdempotent | ZalithLauncher/src/main/java/com/movtery/zalithlauncher/game/launch/handler/GameHandler.kt:154 | Inserting twice is inserting once |
| GameHandler.UpdateResourcePacks | ZalithLauncher/src/main/java/com/movtery/zalithlauncher/game/launch/handler/GameHandler.kt:151-163 | Only the resourcePacks option changes, to the encoded list with the pack inserted |
| GameHandler.UpdateReadsBack | ZalithLauncher/src/main/java/com/movtery/zalithlauncher/game/launch/handler/GameHandler.kt:151-163 | Reading the option back gives the old list with the pack inserted |
| GameHandler.UpdateTwiceSameList | ZalithLauncher/src/main/java/com/movtery/zalithlauncher/game/launch/handler/GameHandler.kt:151-163 | Launching twice does not enter the pack twice |
| GameHandler.LocalSkinResourcePack | ZalithLauncher/src/main/java/com/movtery/zalithlauncher/game/launch/handler/GameHandler.kt:107-169 | The options change exactly when a pack is called for and was packed, and then only by that resource pack's entry |
| GameHandler.OldVersionsUntouched | ZalithLauncher/src/main/java/com/movtery/zalithlauncher/game/launch/handler/GameHandler.kt:115 | Versions with a main code of 0 to 5 keep their options untouched |
| GameHandler.SnapshotPack | ZalithLauncher/src/main/java/com/movtery/zalithlauncher/game/launch/handler/GameHandler.kt:115-148 | A snapshot gets format 17, the new layout with nine files and a "file/" entry |
| SettingsInitializer.BestRamAllocation | ZalithLauncher/src/main/java/com/movtery/zalithlauncher/setting/SettingsInitializer.kt:35-48 | A 32-bit device gets 696 MB; otherwise the default lies between 296 and 2048 MB, at its ends below 1 GB and from 6 GB on |
| SettingsInitializer.RamAllocationMonotone | ZalithLauncher/src/main/java/com/movtery/zalithlauncher/setting/SettingsInitializer.kt:35-48 | More device memory never gives a smaller default |
| SettingsInitializer.LeavesHalfForSystem | ZalithLauncher/src/main/java/com/movtery/zalithlauncher/setting/SettingsInitializer.kt:35-48 | With at least 1 GB the default leaves at least half of the memory to the system |
| SettingsInitializer.FirstWithPrefix | ZalithLauncher/src/main/java/com/movtery/zalithlauncher/setting/SettingsInitializer.kt:19-20 | The first argument with the prefix, or none exactly when no argument has it |
| SettingsInitializer.LoadAllSettings | ZalithLauncher/src/main/java/com/movtery/zalithlauncher/setting/SettingsInitializer.kt:14-23 | An unset heap size gets the default and a set one is kept; without a library-name argument the JVM arguments are kept, otherwise they only lose text |
| SettingsInitializer.RamChosenOnce | ZalithLauncher/src/main/java/com/movtery/zalithlauncher/setting/SettingsInitializer.kt:15-18 | A second start-up keeps the heap size the first one chose |
| AccountUtils.KindsExclusive | ZalithLauncher/src/main/java/com/movtery/zalithlauncher/game/account/AccountUtils.kt:41-59 | No account is both Microsoft and local; every account needing no login may change its skin, and the other skin-changing accounts are Microsoft ones |
| AccountUtils.AccountTypeName | ZalithLauncher/src/main/java/com/movtery/zalithlauncher/game/account/AccountUtils.kt:278-286 | Microsoft accounts are labelled Microsoft; other accounts with a server are labelled by their stored type; the rest local |
| AccountUtils.LocalLabelled | ZalithLauncher/src/main/java/com/movtery/zalithlauncher/game/account/AccountUtils.kt:278-286 | A local account without a server is labelled local |
| AccountUtils.AddServer | ZalithLauncher/src/main/java/com/movtery/zalithlauncher/game/account/AccountUtils.kt:239-246 | A server whose base URL is already listed is not added; any other server is appended |
| AccountUtils.AddServerKeepsUnique | ZalithLauncher/src/main/java/com/movtery/zalithlauncher/game/account/AccountUtils.kt:239-246 | The server list never gets two entries with the same base URL, and afterwards holds the server's URL |
| AccountUtils.AddHttpsIfMissingAsWritten | ZalithLauncher/src/main/java/com/movtery/zalithlauncher/game/account/AccountUtils.kt:323-327 | As written: an address with a scheme the test recognises is only lower-cased, any other one gets "https://" in front of its lower-cased form, and nothing gets shorter |
| AccountUtils.DoubledSchemeAsWritten | ZalithLauncher/src/main/java/com/movtery/zalithlauncher/game/account/AccountUtils.kt:324 | "HTTPS://x" gets a second scheme |
| AccountUtils.AddHttpsIfMissing | ZalithLauncher/src/main/java/com/movtery/zalithlauncher/game/account/AccountUtils.kt:323-327 | Corrected: an address with either scheme in any case is only lower-cased; any other gets "https://" in front |
| AccountUtils.AddHttpsIdempotent | ZalithLauncher/src/main/java/com/movtery/zalithlauncher/game/account/AccountUtils.kt:323-327 | The corrected result always starts with a lower-case scheme, and fixing it again changes nothing |
| Renderers.AddRenderer | ZalithLauncher/src/main/java/com/movtery/zalithlauncher/game/renderer/Renderers.kt:82-92 | A renderer is added, and true returned, exactly when its identifier is not registered yet; otherwise nothing changes |
| Renderers.AddKeepsUnique | ZalithLauncher/src/main/java/com/movtery/zalithlauncher/game/renderer/Renderers.kt:82-92 | Adding keeps the identifiers unique |
| Renderers.AddRenderers | ZalithLauncher/src/main/java/com/movtery/zalithlauncher/game/renderer/Renderers.kt:72-76 | Adding several keeps the registered renderers in front and touches nothing else |
| Renderers.AddRenderersRegisters | ZalithLauncher/src/main/java/com/movtery/zalithlauncher/game/renderer/Renderers.kt:72-76 | Afterwards every added identifier is registered, identifiers stay unique, and only given renderers are new |
| Renderers.Init | ZalithLauncher/src/main/java/com/movtery/zalithlauncher/game/renderer/Renderers.kt:22-39 | Once initialised nothing happens unless reset; a reset drops the cache and the current renderer; the first call registers the built-in renderers |
| Renderers.ResetRebuilds | ZalithLauncher/src/main/java/com/movtery/zalithlauncher/game/renderer/Renderers.kt:26-38 | A reset leaves exactly the built-in renderers, each identifier once |
| Renderers.InitIdempotent | ZalithLauncher/src/main/java/com/movtery/zalithlauncher/game/renderer/Renderers.kt:22-23 | A second init without reset changes nothing |
| Renderers.CompatibleWith | ZalithLauncher/src/main/java/com/movtery/zalithlauncher/game/renderer/Renderers.kt:49-54 | Exactly the registered renderers the device supports, in registry order and with their multiplicity; the first is the first supported one in the registry |
| Renderers.FullDeviceKeepsAll | ZalithLauncher/src/main/java/com/movtery/zalithlauncher/game/renderer/Renderers.kt:50-54 | On a device with Vulkan and the Zink binary every renderer is compatible |
| Renderers.GetCompatible | ZalithLauncher/src/main/java/com/movtery/zalithlauncher/game/renderer/Renderers.kt:44-66 | A cached list is returned as it is; otherwise the supported renderers are computed and cached |
| Renderers.ListOf | ZalithLauncher/src/main/java/com/movtery/zalithlauncher/game/renderer/Renderers.kt:56-63 | The identifier and name lists follow the renderers position by position |
| Renderers.CacheIgnoresLaterRenderers | ZalithLauncher/src/main/java/com/movtery/zalithlauncher/game/renderer/Renderers.kt:44 | Once computed, the compatible list does not include renderers added later |
| Renderers.FindById | ZalithLauncher/src/main/java/com/movtery/zalithlauncher/game/renderer/Renderers.kt:103 | The renderer found has the identifier; none is found exactly when no renderer has it |
| Renderers.SetCurrent | ZalithLauncher/src/main/java/com/movtery/zalithlauncher/game/renderer/Renderers.kt:100-110 | Uninitialised calls fail; a compatible renderer with the identifier becomes current; otherwise the first compatible one when retrying (failing on an empty list), else none |
| Renderers.GetCurrent | ZalithLauncher/src/main/java/com/movtery/zalithlauncher/game/renderer/Renderers.kt:115-118 | Fails when uninitialised or unset, otherwise gives the current renderer |
| Renderers.ValidIffReadable | ZalithLauncher/src/main/java/com/movtery/zalithlauncher/game/renderer/Renderers.kt:123 | The validity test holds exactly when reading the current renderer succeeds |
| Renderers.StepKeepsWf | ZalithLauncher/src/main/java/com/movtery/zalithlauncher/game/renderer/Renderers.kt:22-123 | Every call keeps identifiers unique, the cached list registered and the current renderer in the cached list |
| Renderers.RunKeepsWf | ZalithLauncher/src/main/java/com/movtery/zalithlauncher/game/renderer/Renderers.kt:22-123 | Any sequence of calls keeps that invariant |
| Renderers.FailedSelectCaches | ZalithLauncher/src/main/java/com/movtery/zalithlauncher/game/renderer/Renderers.kt:99-110 | A retried selection that fails for want of a compatible renderer has still cached the empty compatible list, so a renderer added later stays hidden |
| RendererPluginManager.EntryKeyValue | ZalithLauncher/src/main/java/com/movtery/zalithlauncher/game/plugin/renderer/RendererPluginManager.kt:93-95 | An entry's key and value are the '='-free texts before the first '=' and between it and the next |
| RendererPluginManager.EntryRoundTrip | ZalithLauncher/src/main/java/com/movtery/zalithlauncher/game/plugin/renderer/RendererPluginManager.kt:92-95 | An entry written as key=value with neither part holding '=' reads back as that key and value |
| RendererPluginManager.ApplyEntry | ZalithLauncher/src/main/java/com/movtery/zalithlauncher/game/plugin/renderer/RendererPluginManager.kt:92 | An entry without '=' changes nothing |
| RendererPluginManager.ControlKeysStayOut | ZalithLauncher/src/main/java/com/movtery/zalithlauncher/game/plugin/renderer/RendererPluginManager.kt:96-105 | The renderer id and dlopen keys never reach the plugin's environment |
| RendererPluginManager.RendererIdFromLastEntry | ZalithLauncher/src/main/java/com/movtery/zalithlauncher/game/plugin/renderer/RendererPluginManager.kt:88-97 | The last POJAV_RENDERER entry decides the renderer id; without one it is the first part of the renderer string |
| RendererPluginManager.DlopenCollectsAll | ZalithLauncher/src/main/java/com/movtery/zalithlauncher/game/plugin/renderer/RendererPluginManager.kt:98-102 | The libraries to dlopen are the comma-separated parts of every DLOPEN entry, in order |
| RendererPluginManager.MesaEntryPrefixed | ZalithLauncher/src/main/java/com/movtery/zalithlauncher/game/plugin/renderer/RendererPluginManager.kt:103 | A Mesa library entry is stored under the plugin's native library directory |
| RendererPluginManager.ProgressEglName | ZalithLauncher/src/main/java/com/movtery/zalithlauncher/game/plugin/renderer/RendererPluginManager.kt:138-140 | An absolute EGL name gets the library path in front; any other is kept |
| RendererPluginManager.ParseApkPlugin | ZalithLauncher/src/main/java/com/movtery/zalithlauncher/game/plugin/renderer/RendererPluginManager.kt:75-136 | System apps, apps not announcing a plugin and apps missing metadata are ignored; a renderer string of fewer than three parts fails; a loaded plugin is identified by its package |
| RendererPluginManager.LoadedPluginFields | ZalithLauncher/src/main/java/com/movtery/zalithlauncher/game/plugin/renderer/RendererPluginManager.kt:86-130 | A loaded plugin's id, dlopen list and GL name come from its metadata as described above |
| RendererPluginManager.AddParsed | ZalithLauncher/src/main/java/com/movtery/zalithlauncher/game/plugin/renderer/RendererPluginManager.kt:132-133 | A loaded plugin is appended to both lists; anything else changes nothing |
| RendererPluginManager.RemoveRenderers | ZalithLauncher/src/main/java/com/movtery/zalithlauncher/game/plugin/renderer/RendererPluginManager.kt:26-28 | Exactly the plugins equal to a removed one leave the list, and the app list is untouched |
| RendererPluginManager.FindPlugin | ZalithLauncher/src/main/java/com/movtery/zalithlauncher/game/plugin/renderer/RendererPluginManager.kt:48 | The plugin found has the identifier; none is found only when no plugin has it |
| RendererPluginManager.SelectedPlugin | ZalithLauncher/src/main/java/com/movtery/zalithlauncher/game/plugin/renderer/RendererPluginManager.kt:43-49 | Without a current renderer no plugin is selected; a selected plugin is listed and has the current renderer's identifier |
| RendererPluginManager.ConfigurablePlugin | ZalithLauncher/src/main/java/com/movtery/zalithlauncher/game/plugin/renderer/RendererPluginManager.kt:63-70 | Exactly the first app plugin with the identifier, when its package is one of the three with settings |
| RendererPluginManager.OnlyWhitelistedConfigurable | ZalithLauncher/src/main/java/com/movtery/zalithlauncher/game/plugin/renderer/RendererPluginManager.kt:64-69 | A plugin whose package is not on the list is never configurable |
| LaunchArgs.SplitAndFilterEmpty | ZalithLauncher/src/main/java/com/movtery/zalithlauncher/game/launch/LaunchArgs.kt:166-172 | The words are non-empty and hold no space |
| LaunchArgs.WordsRoundTrip | ZalithLauncher/src/main/java/com/movtery/zalithlauncher/game/launch/LaunchArgs.kt:166-172 | Non-empty space-free words joined by single spaces split back into the same words |
| LaunchArgs.ExtraSpaceIgnored | ZalithLauncher/src/main/java/com/movtery/zalithlauncher/game/launch/LaunchArgs.kt:168-169 | Doubling a separator between two argument strings changes nothing |
| LaunchArgs.VersionType | ZalithLauncher/src/main/java/com/movtery/zalithlauncher/game/launch/LaunchArgs.kt:161-163 | The version type is the custom info when it has visible text, else the manifest's type |
| LaunchArgs.ClientArgEntries | ZalithLauncher/src/main/java/com/movtery/zalithlauncher/game/launch/LaunchArgs.kt:128-142 | The client placeholder map has fifteen entries |
| LaunchArgs.ClientEntriesBind | ZalithLauncher/src/main/java/com/movtery/zalithlauncher/game/launch/LaunchArgs.kt:129-140 | The token, player name, user type, version name and dash-free UUID placeholders get the intended values |
| LaunchArgs.VersionTypeChoice | ZalithLauncher/src/main/java/com/movtery/zalithlauncher/game/launch/LaunchArgs.kt:158-164 | The version_type entry follows the custom info only when it has visible text |
| LaunchArgs.ClientArgSource | ZalithLauncher/src/main/java/com/movtery/zalithlauncher/game/launch/LaunchArgs.kt:145-153 | An arguments object without a game list fails; otherwise the legacy argument string wins when present |
| LaunchArgs.ClientArgs | ZalithLauncher/src/main/java/com/movtery/zalithlauncher/game/launch/LaunchArgs.kt:127-156 | The game arguments fail exactly when their source does, and hold one argument per word |
| LaunchArgs.PlainGameArgsPassThrough | ZalithLauncher/src/main/java/com/movtery/zalithlauncher/game/launch/LaunchArgs.kt:145-155 | Plain 1.13+ game words without placeholders reach the command line unchanged and in order |
| LaunchArgs.AddIgnoreList | ZalithLauncher/src/main/java/com/movtery/zalithlauncher/game/launch/LaunchArgs.kt:114-117 | An ignore-list flag gets the version's own jar appended; any other argument is kept |
| LaunchArgs.JvmStrings | ZalithLauncher/src/main/java/com/movtery/zalithlauncher/game/launch/LaunchArgs.kt:118-122 | One argument per string JVM argument, each with the ignore list extended |
| LaunchArgs.MinecraftJvmArgs | ZalithLauncher/src/main/java/com/movtery/zalithlauncher/game/launch/LaunchArgs.kt:98-125 | A manifest without JVM arguments contributes none; otherwise one per string argument |
| LaunchArgs.AgentArgs | ZalithLauncher/src/main/java/com/movtery/zalithlauncher/game/launch/LaunchArgs.kt:61-68 | No agent without a login server; nide8auth with its client flag for its host; authlib-injector with the server URL otherwise |
| LaunchArgs.Nide8ServerId | ZalithLauncher/src/main/java/com/movtery/zalithlauncher/game/launch/LaunchArgs.kt:63 | The nide8auth agent gets the server id, the URL without its prefix |
| LaunchArgs.JavaArgs | ZalithLauncher/src/main/java/com/movtery/zalithlauncher/game/launch/LaunchArgs.kt:58-96 | The agent comes first, the logging configuration follows the AWT arguments, and the two native paths are added exactly when the version has its own natives |
| LaunchArgs.Jars | ZalithLauncher/src/main/java/com/movtery/zalithlauncher/game/launch/LaunchArgs.kt:54 | Only jar files of the directory listing are kept |
| LaunchArgs.Lwjgl3ClassPath | ZalithLauncher/src/main/java/com/movtery/zalithlauncher/game/launch/LaunchArgs.kt:52-56 | A directory that cannot be listed gives an empty class path |
| LaunchArgs.PackageOf | ZalithLauncher/src/main/java/com/movtery/zalithlauncher/game/launch/LaunchArgs.kt:42 | The package is the text before the last '.'; a class name without '.' has none |
| LaunchArgs.ExportArgs | ZalithLauncher/src/main/java/com/movtery/zalithlauncher/game/launch/LaunchArgs.kt:40-44 | Java 8 and earlier get no export; later versions open the main class's package, failing for a class without one |
| LaunchArgs.AllArgs | ZalithLauncher/src/main/java/com/movtery/zalithlauncher/game/launch/LaunchArgs.kt:32-50 | Java arguments, JVM arguments, "-cp" with both class paths, the exports on Java 9+, the main class and the game arguments, in that order |
| LaunchArgs.MainClassPosition | ZalithLauncher/src/main/java/com/movtery/zalithlauncher/game/launch/LaunchArgs.kt:37-46 | The main class follows the class path on Java 8 and the export pair later |
| LaunchArgs.LaunchArguments | ZalithLauncher/src/main/java/com/movtery/zalithlauncher/game/launch/LaunchArgs.kt:32-50 | The command line starts with the Java arguments and ends with the game arguments, and fails when the game arguments do |
| VersionConfig.NotNull | ZalithLauncher/src/main/java/com/movtery/zalithlauncher/utils/string/StringUtils.kt:82 | A missing string field reads as the empty string, a present one as itself |
| VersionConfig.TypeOf | ZalithLauncher/src/main/java/com/movtery/zalithlauncher/game/version/installed/VersionConfig.kt:135 | A missing isolation type follows the global setting; a present one is kept |
| VersionConfig.CreateIsolation | ZalithLauncher/src/main/java/com/movtery/zalithlauncher/game/version/installed/VersionConfig.kt:194-198 | A fresh config for the path with isolation switched on |
| VersionConfig.IsolationCases | ZalithLauncher/src/main/java/com/movtery/zalithlauncher/game/version/installed/VersionConfig.kt:86-90 | ENABLE isolates and DISABLE does not, whatever the global setting; a missing type isolates exactly when the global setting does |
| VersionConfig.Copy | ZalithLauncher/src/main/java/com/movtery/zalithlauncher/game/version/installed/VersionConfig.kt:47-56 | The copy keeps the path, has every field filled in and differs from the original in no setting, in either direction |
| VersionConfig.CopyIdempotent | ZalithLauncher/src/main/java/com/movtery/zalithlauncher/game/version/installed/VersionConfig.kt:47-56 | Copying a copy gives the same config |
| VersionConfig.DifferentIffCopiesDiffer | ZalithLauncher/src/main/java/com/movtery/zalithlauncher/game/version/installed/VersionConfig.kt:124-133 | Two configs differ exactly when their filled-in copies, paths aside, are unequal; so the comparison is symmetric and irreflexive |
| VersionConfig.FromOrdinal | ZalithLauncher/src/main/java/com/movtery/zalithlauncher/game/version/installed/VersionConfig.kt:154 | An out-of-range ordinal reads as FOLLOW_GLOBAL |
| VersionConfig.OrdinalRoundTrip | ZalithLauncher/src/main/java/com/movtery/zalithlauncher/game/version/installed/VersionConfig.kt:141-154 | Writing an isolation type's ordinal and reading it back gives the same type |
| VersionConfig.WriteToParcel | ZalithLauncher/src/main/java/com/movtery/zalithlauncher/game/version/installed/VersionConfig.kt:139-149 | A config is written as nine parcel values |
| VersionConfig.CreateFromParcel | ZalithLauncher/src/main/java/com/movtery/zalithlauncher/game/version/installed/VersionConfig.kt:152-163 | A config read from any parcel has an isolation type |
| VersionConfig.ParcelRoundTrip | ZalithLauncher/src/main/java/com/movtery/zalithlauncher/game/version/installed/VersionConfig.kt:139-163 | A config written to a parcel and read back is its filled-in copy, with the same path and no different setting |
| InstalledVersion.VersionName | ZalithLauncher/src/main/java/com/movtery/zalithlauncher/game/version/installed/Version.kt:39-44 | The version name has no path separator |
| InstalledVersion.VersionNameIsName | ZalithLauncher/src/main/java/com/movtery/zalithlauncher/game/version/installed/Version.kt:39-44 | A version name without a separator is returned unchanged |
| InstalledVersion.VersionSummary | ZalithLauncher/src/main/java/com/movtery/zalithlauncher/game/version/installed/Version.kt:66-77 | An invalid version fails; a summary with visible text is used; a blank one is replaced by the version information's text, failing when there is none |
| InstalledVersion.GameDir | ZalithLauncher/src/main/java/com/movtery/zalithlauncher/game/version/installed/Version.kt:92-97 | An isolated version plays in its own folder; otherwise in a non-empty custom path or else the game home |
| InstalledVersion.GameDirOfIsolated | ZalithLauncher/src/main/java/com/movtery/zalithlauncher/game/version/installed/Version.kt:92-97 | A config made by createIsolation plays in its folder under any global setting; one following a global "off" with no custom path plays in the game home |
| InstalledVersion.ValueOrDefault | ZalithLauncher/src/main/java/com/movtery/zalithlauncher/game/version/installed/Version.kt:99 | An empty value is replaced by the default, a non-empty one kept |
| InstalledVersion.SettingFallbacks | ZalithLauncher/src/main/java/com/movtery/zalithlauncher/game/version/installed/Version.kt:101-103 | A version without its own renderer or driver uses the global one, and keeps its own otherwise |
| InstalledVersion.CustomInfoPlain | ZalithLauncher/src/main/java/com/movtery/zalithlauncher/game/version/installed/Version.kt:109-110 | A custom info text without the version marker is shown unchanged |
| InstalledVersion.CustomInfoTemplate | ZalithLauncher/src/main/java/com/movtery/zalithlauncher/game/version/installed/Version.kt:109-110 | The version marker in a custom info text is replaced by the launcher's version and the rest kept |

## Left out

- Compose UI, dialogs, activities, the native bridges, concurrency (task systems, thread pools, atomics) and every network client are outside the model: they are rendering, foreign code or timing.
- File and persistence I/O become parameters or are left out: file existence, SHA-1 comparison results, settings reads, the saving of configs, accounts and server lists, and the packing of zip files.
- Device probes become parameters: the device architecture, Vulkan and Zink support, the GLES version and the device's memory size.
- Regular expressions become parameters: the character-class test of the dotted-version comparison, the loader id patterns of the version JSON (the `detect` parameter of `VersionInfoUtils`) and the OptiFine HTML scraping, whose extracted cells are inputs.
- StringUtils.ShiftString: positions count Unicode characters, while Kotlin's `length` and `substring` count UTF-16 code units; the two agree on text inside the Basic Multilingual Plane, and a rotation that splits a surrogate pair (U+1F600 followed by "a", shifted left by 1) yields lone surrogates, which a Dafny string cannot hold.
- KotlinText.ToIntOrNull: accepts ASCII decimal digits only; Kotlin also accepts other Unicode decimal digits.
- KotlinText.Lowercase: folds ASCII letters only; `lowercase(Locale.ROOT)` and `equalsIgnoreCase` fold every Unicode letter.
- KotlinText.ReplaceAll: defined for a non-empty pattern only; every call in the modelled code passes a non-empty one.
- KotlinText.IndexOfFrom: defined for a start position up to the length; every call in the modelled code satisfies this.
- GameLauncher.HasExtension: requires a non-empty file name; the source loops forever on "", and its callers pass literals.
- Java `File` path normalisation (`..`, doubled separators, absolute paths) is not modelled: paths are joined with "/".
- MCOptions splits lines at '\n' only; a file with "\r\n" endings keeps the '\r' in its values.
- SkinModelType.kt is not part of this model: the two model type names are inferred and the model directory is a parameter.
- The ApkRendererPlugin and RendererPlugin classes are not part of this model: their fields are inferred from their use, and the app label read from the package manager is a parameter.
- The built-in renderer list is a parameter of `Renderers`; which GL libraries each renderer loads is not modelled.
- ParseJavaArguments: the whole-input result is stated for inputs built from clean fragments (ParseClean); for inputs with a doubled '=', commas, a stray '-' inside an argument or one fragment prefixing another, only the shape of the result is stated, because the cutting and the text replacement then interact in input-specific ways.
- Renderers.GetCompatible: the cached compatible list is never refreshed after a later `addRenderer`; this is the source's behaviour, stated by CacheIgnoresLaterRenderers, not corrected.
- SettingsInitializer.LoadAllSettings: the source deletes every verbatim occurrence of the found argument from the stored text, not only the parsed one; the model does the same and states only that the text shrinks.
- Version.kt reads the version summary and the JVM arguments from the config through methods that VersionConfig.kt does not define; the model keeps them as fields of the installed version.
- VersionConfig's JSON reading, writing and the old-format migration in `parseConfig` and `createNewConfig` are file I/O.
- FavoritesVersionUtils: `getFavoritesStructure` is a defensive copy of a mutable map, which immutable maps make unnecessary.
- AccountUtils: `tryGetFullServerUrl` and the server-login calls are network code; only the scheme fix-up is modelled. `localLogin` and `saveAccount` are persistence.
- MinecraftDownloader: the downloads themselves, progress counters updated by worker threads and `ensureFileCopy`'s copying are left out; the decision to copy is CopyNeeded.
- LaunchArgs: writing the log4j configuration file and the choice between its 1.7 and 1.12 variants are the `log4jConfig` parameter; the Cacio AWT arguments are a parameter; whether the natives folder exists is the `nativesDir` parameter.
- GamePathManager: random UUIDs are drawn from a `candidates` parameter; the encryption and JSON of the stored path list are left out.
- NetWorks: the delays are returned as values rather than slept, so wall-clock timing is not modelled.
- OptiFineVersions: the list cache and the `force` refresh flag are left out.
- Logging calls everywhere are left out: they do not change results.
- LaunchArgs.ClientArgEntries: the placeholders are kept in insertion order, while the source stores them in an `ArrayMap`, which `insertSingleJSONValue` (StringUtils.kt:119-122) walks in key-hash order; the two orders give different text only when a value itself contains another key's `${…}`, such as a custom info text.
- FileUtils.SortWithFileName: the name comparison `compareChar` comes from StringUtils and is a parameter; the directory-first rule around it is modelled.

## Findings

| source | as written | input that shows it | evidently intended | confidence | as-written member | corrected member |
|---|---|---|---|---|---|---|
| ZalithLauncher/src/main/java/com/movtery/zalithlauncher/ui/screens/content/download/game/DownloadGameWithAddonScreen.kt:471-472 | When Forge is chosen with no OptiFine selected and the build fits the OptiFine list, FORGE is removed from the Forge list's own incompatibility marks | choose a Forge build before the OptiFine list loads (OptiFine gets marked), then a build that fits a loaded list whose requirement is "" | remove FORGE from the OptiFine list's marks, as the branch above does, so OptiFine becomes selectable again | high; not executed | AddonSelection.StaleForgeMarkAsWritten | AddonSelection.PickForge |
| ZalithLauncher/src/main/java/com/movtery/zalithlauncher/game/account/AccountUtils.kt:324 | The "http://" test ignores case but the "https://" test does not | "HTTPS://x" becomes "https://https://x" | an address with either scheme in any case gets no second scheme | high; not executed | AccountUtils.DoubledSchemeAsWritten | AccountUtils.AddHttpsIdempotent |
| ZalithLauncher/src/main/java/com/movtery/zalithlauncher/game/version/download/Minecraft.DownloadUtils.kt:115 | JNA is kept only when major >= 5 and minor >= 13, testing the two parts separately | "net.java.dev.jna:jna:6.0.0" is rewritten down to 5.13.0 | keep every version at or above 5.13.0, as the comment above the test says | high; not executed | DownloadUtils.JnaDowngradeAsWritten | DownloadUtils.JnaNeverDowngraded |
| ZalithLauncher/src/main/java/com/movtery/zalithlauncher/ui/screens/content/download/game/DownloadGameWithAddonScreen.kt:364-684 | The OptiFine and Forge list filters (:364, :441) and the fit tests on a loaded list (:670, :684) compare an OptiFine requirement with the whole build number through compareClassVersions | a requirement "2847" against Forge 14.23.5.2847: the pair test accepts it, the list filter does not | read the requirement as compareOptiFineRequired does, so the list and the pair test agree | medium; not executed | AddonSelection.UndottedRequirementAsWritten | AddonSelection.MeetsAgrees |

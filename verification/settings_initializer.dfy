/** The fixes applied to the stored settings at start-up: a default heap
  * size chosen from the device's memory, and removal of a user JVM
  * argument that would override the OpenGL library the launcher picks. */
module SettingsInitializer {
  import opened Wrappers
  import opened KotlinText
  import opened Launcher

  /** `findBestRAMAllocation`: 696 MB on a 32-bit device; otherwise a step
    * function of the device memory in MB. */
  function BestRamAllocation(is32Bit: bool, deviceRam: int): (r: int)
    ensures is32Bit ==> r == 696
    ensures !is32Bit ==> 296 <= r <= 2048
    ensures !is32Bit && deviceRam < 1024 ==> r == 296
    ensures !is32Bit && deviceRam >= 6144 ==> r == 2048
  {
    if is32Bit then 696
    else if deviceRam < 1024 then 296
    else if deviceRam < 1536 then 448
    else if deviceRam < 2048 then 656
    else if deviceRam < 3064 then 936
    else if deviceRam < 4096 then 1144
    else if deviceRam < 6144 then 1536
    else 2048
  }

  /** More device memory never gives a smaller default. */
  lemma RamAllocationMonotone(deviceRam1: int, deviceRam2: int)
    requires deviceRam1 <= deviceRam2
    ensures BestRamAllocation(false, deviceRam1) <= BestRamAllocation(false, deviceRam2)
  {
  }

  /** On a 64-bit device with at least 1 GB the default leaves at least
    * half of the memory to the system. */
  lemma LeavesHalfForSystem(deviceRam: int)
    requires deviceRam >= 1024
    ensures 2 * BestRamAllocation(false, deviceRam) <= deviceRam
  {
  }

  /** The argument the launcher does not let the user set. */
  const LwjglLibNameArg: Str := "-Dorg.lwjgl.opengl.libname="

  /** `find { it.startsWith(p) }`. */
  function FirstWithPrefix(args: seq<Str>, p: Str): (r: Option<Str>)
    ensures r.None? <==> forall i :: 0 <= i < |args| ==> !StartsWith(args[i], p)
    ensures r.Some? ==> (StartsWith(r.value, p)
      && exists i :: 0 <= i < |args| && args[i] == r.value && forall j :: 0 <= j < i ==> !StartsWith(args[j], p))
  {
    if |args| == 0 then None
    else if StartsWith(args[0], p) then Some(args[0])
    else FirstWithPrefix(args[1..], p)
  }

  datatype Settings = Settings(ramAllocation: int, jvmArgs: Str)

  /** The argument `loadAllSettings` deletes from the stored JVM arguments:
    * the first parsed one that sets the OpenGL library name. */
  function LibNameArgument(jvmArgs: Str): Option<Str>
  {
    FirstWithPrefix(ParseJavaArguments(jvmArgs), LwjglLibNameArg)
  }

  /** `loadAllSettings`: an unset heap size (-1) gets the computed default;
    * a library-name argument is deleted everywhere it occurs verbatim in
    * the stored text. */
  function LoadAllSettings(s: Settings, is32Bit: bool, deviceRam: int): (r: Settings)
    ensures s.ramAllocation == -1 ==> r.ramAllocation == BestRamAllocation(is32Bit, deviceRam)
    ensures s.ramAllocation != -1 ==> r.ramAllocation == s.ramAllocation
    ensures r.ramAllocation != -1
    ensures LibNameArgument(s.jvmArgs).None? ==> r.jvmArgs == s.jvmArgs
    ensures forall c :: c in r.jvmArgs ==> c in s.jvmArgs
    ensures (LibNameArgument(s.jvmArgs).Some? && Contains(s.jvmArgs, LibNameArgument(s.jvmArgs).value)) ==>
      |r.jvmArgs| + |LibNameArgument(s.jvmArgs).value| <= |s.jvmArgs|
  {
    var ram := if s.ramAllocation == -1 then BestRamAllocation(is32Bit, deviceRam) else s.ramAllocation;
    match LibNameArgument(s.jvmArgs)
    case None => Settings(ram, s.jvmArgs)
    case Some(arg) =>
      DeleteShrinks(s.jvmArgs, arg);
      Settings(ram, ReplaceAll(s.jvmArgs, arg, ""))
  }

  /** A second start-up keeps the heap size the first one chose. */
  lemma RamChosenOnce(s: Settings, is32Bit: bool, deviceRam: int, deviceRam2: int)
    ensures LoadAllSettings(LoadAllSettings(s, is32Bit, deviceRam), is32Bit, deviceRam2).ramAllocation
      == LoadAllSettings(s, is32Bit, deviceRam).ramAllocation
  {
  }
}

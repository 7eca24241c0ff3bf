/**
 * The "Create File Here" command: from the typed file name and what the
 * environment reports, it either creates the file in the focused file-manager
 * directory, falls back to a fresh temporary directory and the clipboard, or
 * fails with one of two messages. The filesystem, the clipboard and the HUD are
 * outside the model: the entries of the focused directory, whether it is
 * writable, the temporary directory chosen and which effectful steps throw are
 * inputs, and the command's decision is the result.
 */
module CreateFileHere {
  import opened Wrappers
  import opened Text
  import opened FileNames
  import opened Locators

  /** The effectful steps inside the command's `try` block that can throw. */
  datatype Step =
    | CreateInPlace     // writing the empty file into the explorer directory
    | CreateInTmp       // creating the random temporary directory and the file in it
    | CopyToClipboard   // handing the temporary file to the clipboard

  /** What the command observes, everything it learns from outside itself. */
  datatype Environment = Environment(
    explorerPath: Option<string>,      // what `getCurrentExplorerPath` returned
    explorerWritable: bool,            // `isDirectoryWritable` of that path
    existing: set<string>,             // entry names present in that directory
    disableClipboardFallback: bool,    // the command's preference
    tmpDirectory: string,              // the random directory `createFileInTmp` would use
    failing: set<Step>)                // the steps that throw in this run

  /** The end state of one run of the command. */
  datatype Outcome =
    | InPlace(directory: string, fileName: string, locationName: string)
    | ClipboardFallback(directory: string, fileName: string)
    | NoExplorerFailure
    | GenericFailure

  /** The argument, or "default.txt" when it is empty (the `||` fallback). */
  function EffectiveFileName(argument: string): (f: string)
    ensures argument != [] ==> f == argument
    ensures argument == [] ==> f == DEFAULT_NAME + "." + DEFAULT_EXTENSION
  {
    if argument == [] then "default.txt" else argument
  }

  /** The empty-argument fallback is redundant: parsing "" already gives default.txt. */
  lemma EffectiveFileNameParsesAlike(argument: string)
    ensures ParseFileName(EffectiveFileName(argument)) == ParseFileName(argument)
    ensures argument == [] ==> ParseFileName(EffectiveFileName(argument)) == ParsedFileName(DEFAULT_NAME, DEFAULT_EXTENSION)
  {
    if argument == [] {
      assert EffectiveFileName(argument) == DEFAULT_NAME + "." + DEFAULT_EXTENSION;
      ParseJoined(DEFAULT_NAME, DEFAULT_EXTENSION);
      assert Trim(argument) == [];
    }
  }

  /**
   * `explorerPath && isDirectoryWritable(explorerPath)`: both `null` and the empty
   * string are falsy, so an empty path is as good as none.
   */
  predicate InPlaceUsable(env: Environment)
    ensures env.explorerPath == None ==> !InPlaceUsable(env)
    ensures env.explorerPath == Some("") ==> !InPlaceUsable(env)
    ensures !env.explorerWritable ==> !InPlaceUsable(env)
    ensures env.explorerPath.Some? && env.explorerPath != Some("") && env.explorerWritable ==> InPlaceUsable(env)
  {
    env.explorerPath.Some? && env.explorerPath.value != [] && env.explorerWritable
  }

  /**
   * The command's branch decision. `basename` is `path.basename`, which the model
   * takes as given.
   */
  function Decide(argument: string, env: Environment, basename: string -> string): (o: Outcome)
    ensures o.InPlace? <==> InPlaceUsable(env) && CreateInPlace !in env.failing
    ensures o.NoExplorerFailure? <==> !InPlaceUsable(env) && env.disableClipboardFallback
    ensures o.ClipboardFallback? <==>
      !InPlaceUsable(env) && !env.disableClipboardFallback
      && CreateInTmp !in env.failing && CopyToClipboard !in env.failing
    ensures o.GenericFailure? <==>
      (InPlaceUsable(env) && CreateInPlace in env.failing)
      || (!InPlaceUsable(env) && !env.disableClipboardFallback
          && (CreateInTmp in env.failing || CopyToClipboard in env.failing))
    ensures o.InPlace? ==>
      var p := ParseFileName(EffectiveFileName(argument));
      && env.explorerPath == Some(o.directory)
      && o.locationName == basename(o.directory)
      && o.fileName !in env.existing
      && IsFirstFree(env.existing, p.name, p.extension, o.fileName)
    ensures o.ClipboardFallback? ==>
      var p := ParseFileName(EffectiveFileName(argument));
      o.directory == env.tmpDirectory && o.fileName == p.name + "." + p.extension
  {
    var p := ParseFileName(EffectiveFileName(argument));
    if InPlaceUsable(env) then
      var directory := env.explorerPath.value;
      if CreateInPlace in env.failing then GenericFailure
      else InPlace(directory, UniqueFileName(env.existing, p.name, p.extension), basename(directory))
    else if env.disableClipboardFallback then NoExplorerFailure
    else if CreateInTmp in env.failing || CopyToClipboard in env.failing then GenericFailure
    else ClipboardFallback(env.tmpDirectory, p.name + "." + p.extension)
  }

  /** A path from the Windows locator is never empty, so only writability decides. */
  lemma WindowsPathUsableIffWritable(stdout: Option<string>, env: Environment)
    requires env.explorerPath == WindowsExplorerPath(stdout)
    ensures InPlaceUsable(env) <==> stdout.Some? && !AllWhitespace(stdout.value) && env.explorerWritable
  {
    var r := WindowsExplorerPath(stdout);
    assert r.Some? ==> r.value != [];
  }

  /**
   * A Linux window title with nothing before the dash, such as "- Files", locates
   * the empty path, which the command treats as no file manager at all: the file
   * is never created in place.
   */
  lemma LinuxTitleWithoutFolderNeverInPlace(output: string, dash: char, ws: string, name: string, rest: string,
                                             argument: string, env: Environment, basename: string -> string)
    requires Trim(output) == [dash] + ws + name + rest
    requires IsDash(dash) && AllWhitespace(ws) && (name == "Files" || name == "Dolphin" || name == "Thunar")
    requires env.explorerPath == LinuxFileManagerPath(Some(output))
    ensures env.explorerPath == Some("")
    ensures !InPlaceUsable(env) && !Decide(argument, env, basename).InPlace?
  {
    var title := [dash] + ws + name + rest;
    assert "" + "" + [dash] == [dash];
    assert "" + "" + [dash] + ws + name + rest == title;
    LinuxTitleOf("", "", dash, ws, name, rest);
  }

  /** The entries of the explorer directory after the run: only a successful in-place run adds one. */
  function EntriesAfter(env: Environment, o: Outcome): (entries: set<string>)
    ensures o.InPlace? ==> entries == env.existing + {o.fileName}
    ensures !o.InPlace? ==> entries == env.existing
  {
    if o.InPlace? then env.existing + {o.fileName} else env.existing
  }

  /** The command never overwrites: an in-place run adds exactly one new entry. */
  lemma InPlaceAddsOneEntry(argument: string, env: Environment, basename: string -> string)
    ensures var o := Decide(argument, env, basename);
      o.InPlace? ==> |EntriesAfter(env, o)| == |env.existing| + 1 && env.existing < EntriesAfter(env, o)
  {
    var o := Decide(argument, env, basename);
    if o.InPlace? {
      assert o.fileName !in env.existing;
      assert EntriesAfter(env, o) == env.existing + {o.fileName};
    }
  }

  /** In a directory without a clash the typed name is used as it is. */
  lemma InPlaceKeepsFreeName(argument: string, env: Environment, basename: string -> string)
    requires InPlaceUsable(env) && CreateInPlace !in env.failing
    requires var p := ParseFileName(EffectiveFileName(argument)); p.name + "." + p.extension !in env.existing
    ensures var p := ParseFileName(EffectiveFileName(argument));
      Decide(argument, env, basename).fileName == p.name + "." + p.extension
  {
    var p := ParseFileName(EffectiveFileName(argument));
    var r := UniqueFileName(env.existing, p.name, p.extension);
    var k :| k >= 1 && r == Candidate(p.name, p.extension, k) && r !in env.existing
      && forall j :: 1 <= j < k ==> Candidate(p.name, p.extension, j) in env.existing;
  }

  /** The HUD line shown at the end of a run. */
  function Message(o: Outcome): (m: string)
    ensures m != [] && (m[0] == '\U{2705}' <==> o.InPlace?)
    ensures m[0] == '\U{1F4CB}' <==> o.ClipboardFallback?
    ensures m[0] == '\U{274C}' <==> o.NoExplorerFailure? || o.GenericFailure?
    ensures o.InPlace? ==>
      && |m| == 14 + |o.fileName| + |o.locationName|
      && m[10..10 + |o.fileName|] == o.fileName
      && m[|m| - |o.locationName|..] == o.locationName
    ensures o.ClipboardFallback? ==>
      |m| == 60 + |o.fileName| && m[36..36 + |o.fileName|] == o.fileName
  {
    match o
    case InPlace(_, fileName, locationName) => ['\U{2705}'] + " Created " + fileName + " in " + locationName
    case ClipboardFallback(_, fileName) => ['\U{1F4CB}'] + " No file explorer focused. Created " + fileName + " and copied to clipboard"
    case NoExplorerFailure => ['\U{274C}'] + " No file explorer focused. Cannot create file here."
    case GenericFailure => ['\U{274C}'] + " Failed to create file"
  }

  /**
   * A reader can tell the outcomes apart from the message alone: the kind of
   * outcome, the file name of a clipboard fallback, and which failure occurred.
   */
  lemma MessageTellsOutcome(o1: Outcome, o2: Outcome)
    requires Message(o1) == Message(o2)
    ensures o1.InPlace? == o2.InPlace? && o1.ClipboardFallback? == o2.ClipboardFallback?
    ensures o1.NoExplorerFailure? == o2.NoExplorerFailure? && o1.GenericFailure? == o2.GenericFailure?
    ensures o1.ClipboardFallback? ==> o1.fileName == o2.fileName
  {
  }
}

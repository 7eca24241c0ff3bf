/**
 * The active-directory locators. The automation calls themselves (AppleScript,
 * PowerShell, xdotool) are outside the model: their outputs are inputs here, `None`
 * standing for a call that threw. What is modelled is what each locator decides
 * from those outputs, including the match of a Linux window title against
 * `/^(.*?)\s*[-–—]\s*(?:Files|Dolphin|Thunar)/`.
 */
module Locators {
  import opened Wrappers
  import opened Text
  import opened Platforms

  /**
   * `finderIsFrontmost` and `finderHasOpenWindows`: off macOS the answer is no without
   * asking; on macOS the answer is yes exactly when the script's trimmed output is
   * "true". A script that threw is no.
   */
  predicate FinderAnswer(platform: Platform, output: Option<string>)
    ensures FinderAnswer(platform, output) ==> platform == MacOS && output.Some? && |output.value| >= 4
  {
    platform == MacOS && output.Some? && Trim(output.value) == "true"
  }

  /** The answer is yes exactly when, on macOS, the output is "true" with only whitespace around it. */
  lemma FinderAnswerIffPadded(platform: Platform, output: Option<string>)
    ensures FinderAnswer(platform, output) <==>
      platform == MacOS && output.Some? &&
      exists a :: 0 <= a <= |output.value| - 4 && "true" == output.value[a..a + 4]
        && AllWhitespace(output.value[..a]) && AllWhitespace(output.value[a + 4..])
  {
    if output.Some? {
      TrimIsPaddedWord(output.value, "true");
    }
  }

  /** The script's output may carry whitespace around "true", such as a trailing newline. */
  lemma FinderAnswerIgnoresPadding(before: string, after: string)
    requires AllWhitespace(before) && AllWhitespace(after)
    ensures FinderAnswer(MacOS, Some(before + "true" + after))
    ensures !FinderAnswer(Windows, Some(before + "true" + after)) && !FinderAnswer(Linux, Some(before + "true" + after))
  {
    TrimStrips(before, "true", after);
  }

  /**
   * `getFinderPath`: a path is reported only on macOS, when Finder is frontmost AND
   * has a window; it is the trimmed output of the insertion-location script. Any
   * failure gives no path.
   */
  function FinderPath(platform: Platform, frontmostOutput: Option<string>, hasWindowsOutput: Option<string>, pathOutput: Option<string>): (r: Option<string>)
    ensures r.Some? <==> platform == MacOS && FinderAnswer(platform, frontmostOutput) && FinderAnswer(platform, hasWindowsOutput) && pathOutput.Some?
    ensures r.Some? ==> r.value == Trim(pathOutput.value) && Trim(r.value) == r.value
  {
    if platform != MacOS then None
    else if !FinderAnswer(platform, frontmostOutput) then None
    else if FinderAnswer(platform, hasWindowsOutput) then
      match pathOutput
      case Some(directory) =>
        TrimIdempotent(directory);
        Some(Trim(directory))
      case None => None
    else None
  }

  /** `getWindowsExplorerPath`: the trimmed PowerShell output, with an empty answer or a failure meaning none. */
  function WindowsExplorerPath(stdout: Option<string>): (r: Option<string>)
    ensures r.Some? <==> stdout.Some? && !AllWhitespace(stdout.value)
    ensures r.Some? ==> r.value == Trim(stdout.value) && r.value != [] && Trim(r.value) == r.value
  {
    match stdout
    case None => None
    case Some(out) =>
      TrimIdempotent(out);
      var path := Trim(out);
      if path == [] then None else Some(path)
  }

  /** The dashes of the character class `[-–—]`: hyphen-minus, en dash, em dash. */
  predicate IsDash(c: char) {
    c == '-' || c == '\U{2013}' || c == '\U{2014}'
  }

  predicate HasPrefixAt(s: string, i: nat, w: string) {
    i + |w| <= |s| && s[i..i + |w|] == w
  }

  /** The alternation `(?:Files|Dolphin|Thunar)` matches at `i`; nothing has to follow it. */
  predicate FileManagerNameAt(s: string, i: nat) {
    HasPrefixAt(s, i, "Files") || HasPrefixAt(s, i, "Dolphin") || HasPrefixAt(s, i, "Thunar")
  }

  /** The end of the whitespace run that starts at `i` (greedy `\s*`). */
  function SkipWhitespace(s: string, i: nat): (j: nat)
    requires i <= |s|
    ensures i <= j <= |s|
    ensures forall k :: i <= k < j ==> IsWhitespace(s[k])
    ensures j == |s| || !IsWhitespace(s[j])
    decreases |s| - i
  {
    if i < |s| && IsWhitespace(s[i]) then SkipWhitespace(s, i + 1) else i
  }

  /** Deterministic matcher for the tail `\s*[-–—]\s*(?:Files|Dolphin|Thunar)` at position `i`. */
  predicate SeparatorAt(s: string, i: nat)
    requires i <= |s|
    ensures SeparatorAt(s, i) ==> i + 6 <= |s| && SkipWhitespace(s, i) < |s| && IsDash(s[SkipWhitespace(s, i)])
  {
    var dash := SkipWhitespace(s, i);
    dash < |s| && IsDash(s[dash]) && FileManagerNameAt(s, SkipWhitespace(s, dash + 1))
  }

  /** The regular-expression meaning of the same tail: SOME split into whitespace, a dash, whitespace, a name. */
  ghost predicate SeparatorMatches(s: string, i: nat) {
    exists dash, name :: i <= dash < name <= |s|
      && (forall k :: i <= k < dash ==> IsWhitespace(s[k]))
      && IsDash(s[dash])
      && (forall k :: dash < k < name ==> IsWhitespace(s[k]))
      && FileManagerNameAt(s, name)
  }

  /** A concrete split witnesses the regular-expression meaning. */
  lemma SeparatorMatchesAt(s: string, i: nat, dash: nat, name: nat)
    requires i <= dash < name <= |s|
    requires forall k :: i <= k < dash ==> IsWhitespace(s[k])
    requires IsDash(s[dash])
    requires forall k :: dash < k < name ==> IsWhitespace(s[k])
    requires FileManagerNameAt(s, name)
    ensures SeparatorMatches(s, i)
  {
  }

  /** A file-manager name starts with a letter, so the whitespace before it ends right there. */
  lemma FileManagerNameNotWhitespace(s: string, n: nat)
    requires FileManagerNameAt(s, n)
    ensures n < |s| && !IsWhitespace(s[n])
  {
    if HasPrefixAt(s, n, "Files") {
      assert s[n] == s[n..n + 5][0];
    } else if HasPrefixAt(s, n, "Dolphin") {
      assert s[n] == s[n..n + 7][0];
    } else {
      assert s[n] == s[n..n + 6][0];
    }
  }

  /** What the greedy matcher accepts, the regular expression accepts. */
  lemma SeparatorAtSound(s: string, i: nat)
    requires i <= |s| && SeparatorAt(s, i)
    ensures SeparatorMatches(s, i)
  {
    var dash := SkipWhitespace(s, i);
    var name := SkipWhitespace(s, dash + 1);
    assert i <= dash < name <= |s|;
  }

  /** The greedy whitespace run stops at the first non-whitespace character. */
  lemma SkipWhitespaceStopsAt(s: string, i: nat, d: nat)
    requires i <= d < |s| && !IsWhitespace(s[d])
    requires forall k :: i <= k < d ==> IsWhitespace(s[k])
    ensures SkipWhitespace(s, i) == d
  {
  }

  /** Any split into whitespace, a dash, whitespace and a name is the one the greedy matcher finds. */
  lemma SeparatorAtSplit(s: string, i: nat, d: nat, n: nat)
    requires i <= d < n <= |s|
    requires forall k :: i <= k < d ==> IsWhitespace(s[k])
    requires IsDash(s[d])
    requires forall k :: d < k < n ==> IsWhitespace(s[k])
    requires FileManagerNameAt(s, n)
    ensures SeparatorAt(s, i)
  {
    assert SkipWhitespace(s, i) == d by {
      SkipWhitespaceStopsAt(s, i, d);
    }
    assert SkipWhitespace(s, d + 1) == n by {
      FileManagerNameNotWhitespace(s, n);
      SkipWhitespaceStopsAt(s, d + 1, n);
    }
  }

  /** What the regular expression accepts, the greedy matcher accepts: backtracking `\s*` cannot help. */
  lemma SeparatorAtComplete(s: string, i: nat)
    requires i <= |s| && SeparatorMatches(s, i)
    ensures SeparatorAt(s, i)
  {
    var d, n :| i <= d < n <= |s|
      && (forall k :: i <= k < d ==> IsWhitespace(s[k]))
      && IsDash(s[d])
      && (forall k :: d < k < n ==> IsWhitespace(s[k]))
      && FileManagerNameAt(s, n);
    SeparatorAtSplit(s, i, d, n);
  }

  /** The greedy matcher and the regular-expression meaning agree. */
  lemma SeparatorAtIffMatches(s: string, i: nat)
    requires i <= |s|
    ensures SeparatorAt(s, i) <==> SeparatorMatches(s, i)
  {
    if SeparatorAt(s, i) {
      SeparatorAtSound(s, i);
    }
    if SeparatorMatches(s, i) {
      SeparatorAtComplete(s, i);
    }
  }

  /** No line terminator in `s[i..j]`: the regular-expression `.` can cover it. */
  predicate NoLineTerminator(s: string, i: nat, j: nat)
    requires i <= j <= |s|
  {
    forall k :: i <= k < j ==> !IsLineTerminator(s[k])
  }

  /**
   * The lazy group `(.*?)` from position `i`: the least position at which the tail
   * matches, provided `.` can cover everything up to it.
   */
  function LazySeparator(s: string, i: nat): (r: Option<nat>)
    requires i <= |s|
    ensures r.Some? ==> i <= r.value <= |s| && NoLineTerminator(s, i, r.value) && SeparatorAt(s, r.value)
    ensures r.Some? ==> forall j :: i <= j < r.value ==> !SeparatorAt(s, j)
    ensures r.None? ==> forall j :: i <= j <= |s| && NoLineTerminator(s, i, j) ==> !SeparatorAt(s, j)
    decreases |s| - i
  {
    if SeparatorAt(s, i) then Some(i)
    else if i < |s| && !IsLineTerminator(s[i]) then
      var r := LazySeparator(s, i + 1);
      assert forall j :: i + 1 <= j <= |s| && NoLineTerminator(s, i, j) ==> NoLineTerminator(s, i + 1, j);
      r
    else
      assert forall j :: i < j <= |s| ==> !NoLineTerminator(s, i, j);
      None
  }

  /**
   * The title part of `getLinuxFileManagerPath`: the trimmed text before the
   * earliest separator that is followed by a file-manager name, or none when the
   * regular expression does not match.
   */
  function LinuxTitlePath(title: string): (r: Option<string>)
    ensures r.Some? <==> exists i :: 0 <= i <= |title| && NoLineTerminator(title, 0, i) && SeparatorMatches(title, i)
    ensures r.Some? ==>
      exists i :: (0 <= i <= |title| && NoLineTerminator(title, 0, i) && SeparatorMatches(title, i)
        && (forall j :: 0 <= j < i ==> !SeparatorMatches(title, j))
        && r.value == Trim(title[..i]))
  {
    forall i | 0 <= i <= |title| {
      SeparatorAtIffMatches(title, i);
    }
    match LazySeparator(title, 0)
    case Some(i) => Some(Trim(title[..i]))
    case None => None
  }

  /** A path read from a title is already trimmed. */
  lemma LinuxTitlePathTrimmed(title: string)
    ensures LinuxTitlePath(title).Some? ==> Trim(LinuxTitlePath(title).value) == LinuxTitlePath(title).value
  {
    var r := LinuxTitlePath(title);
    if r.Some? {
      var i :| 0 <= i <= |title| && r.value == Trim(title[..i]);
      TrimIdempotent(title[..i]);
    }
  }

  /** A title without any dash never yields a path. */
  lemma NoDashNoLinuxPath(title: string)
    requires forall c :: c in title ==> !IsDash(c)
    ensures LinuxTitlePath(title) == None
  {
  }

  /** The lazy group stops at the first position where the tail matches. */
  lemma LazySeparatorFindsFirst(s: string, p: nat)
    requires p <= |s| && NoLineTerminator(s, 0, p) && SeparatorAt(s, p)
    requires forall j :: 0 <= j < p ==> !SeparatorAt(s, j)
    ensures LazySeparator(s, 0) == Some(p)
  {
  }

  /**
   * No separator starts inside a dash-free text that does not end in whitespace:
   * the whitespace run from any of its positions stops at one of its own characters.
   */
  lemma NoSeparatorInPrefix(s: string, p: nat)
    requires p <= |s|
    requires forall k :: 0 <= k < p ==> !IsDash(s[k])
    requires p > 0 ==> !IsWhitespace(s[p - 1])
    ensures forall j :: 0 <= j < p ==> !SeparatorAt(s, j)
  {
    forall j | 0 <= j < p ensures !SeparatorAt(s, j) {
      var k := SkipWhitespace(s, j);
      assert k < p;
    }
  }

  /**
   * When a separator starts at `p`, and the text before it has no dash and no line
   * break and does not end in whitespace, the path is that text, trimmed.
   */
  lemma LinuxTitleAt(title: string, p: nat)
    requires p <= |title| && SeparatorMatches(title, p)
    requires forall c :: c in title[..p] ==> !IsDash(c) && !IsLineTerminator(c)
    requires p > 0 ==> !IsWhitespace(title[p - 1])
    ensures LinuxTitlePath(title) == Some(Trim(title[..p]))
  {
    SeparatorAtComplete(title, p);
    assert NoLineTerminator(title, 0, p) && forall j :: 0 <= j < p ==> !SeparatorAt(title, j) by {
      forall k | 0 <= k < p ensures !IsLineTerminator(title[k]) && !IsDash(title[k]) {
        assert title[k] == title[..p][k];
      }
      NoSeparatorInPrefix(title, p);
    }
    LazySeparatorFindsFirst(title, p);
  }

  /**
   * A title laid out as folder, whitespace, one dash, whitespace, a file-manager
   * name and anything after it yields the trimmed folder, provided the folder has
   * no dash and no line break and does not end in whitespace.
   */
  lemma LinuxTitleOf(folder: string, ws1: string, dash: char, ws2: string, name: string, rest: string)
    requires forall c :: c in folder ==> !IsDash(c) && !IsLineTerminator(c)
    requires folder != [] ==> !IsWhitespace(folder[|folder| - 1])
    requires AllWhitespace(ws1) && IsDash(dash) && AllWhitespace(ws2)
    requires name == "Files" || name == "Dolphin" || name == "Thunar"
    ensures LinuxTitlePath(folder + ws1 + [dash] + ws2 + name + rest) == Some(Trim(folder))
  {
    var title := folder + ws1 + [dash] + ws2 + name + rest;
    var p := |folder|;
    var d := p + |ws1|;
    var n := d + 1 + |ws2|;
    assert title[..p] == folder;
    assert title[n..n + |name|] == name;
    assert FileManagerNameAt(title, n);
    forall k | p <= k < d ensures IsWhitespace(title[k]) {
      assert title[k] == ws1[k - p];
    }
    forall k | d < k < n ensures IsWhitespace(title[k]) {
      assert title[k] == ws2[k - d - 1];
    }
    SeparatorMatchesAt(title, p, d, n);
    LinuxTitleAt(title, p);
  }

  /** "- Files" gives the empty path. */
  lemma LinuxTitleEmptyPathExample(title: string)
    requires title == "- Files"
    ensures LinuxTitlePath(title) == Some("")
  {
    assert title == "" + "" + ['-'] + " " + "Files" + "";
    LinuxTitleOf("", "", '-', " ", "Files", "");
  }

  /** An en dash with no whitespace around it separates as well. */
  lemma LinuxTitleEnDashExample(title: string)
    requires title == "x\U{2013}Thunar"
    ensures LinuxTitlePath(title) == Some("x")
  {
    assert title == "x" + "" + ['\U{2013}'] + "" + "Thunar" + "";
    LinuxTitleOf("x", "", '\U{2013}', "", "Thunar", "");
    TrimUnchanged("x");
  }

  /** An em dash before "Dolphin". */
  lemma LinuxTitleEmDashExample(title: string)
    requires title == "a \U{2014} Dolphin"
    ensures LinuxTitlePath(title) == Some("a")
  {
    assert title == "a" + " " + ['\U{2014}'] + " " + "Dolphin" + "";
    LinuxTitleOf("a", " ", '\U{2014}', " ", "Dolphin", "");
    TrimUnchanged("a");
  }

  /** The match is not anchored at the end: "Filesystem" starts with "Files". */
  lemma LinuxTitleUnanchoredExample(title: string)
    requires title == "a - Filesystem"
    ensures LinuxTitlePath(title) == Some("a")
  {
    assert title == "a" + " " + ['-'] + " " + "Files" + "ystem";
    LinuxTitleOf("a", " ", '-', " ", "Files", "ystem");
    TrimUnchanged("a");
  }

  /** A title with no dash gives none. */
  lemma LinuxTitleNoDashExample(title: string)
    requires title == "Terminal"
    ensures LinuxTitlePath(title) == None
  {
    NoDashNoLinuxPath(title);
  }

  /**
   * `getLinuxFileManagerPath`: the xdotool output is trimmed and its title matched;
   * a failed call gives none, and a path found is already trimmed.
   */
  function LinuxFileManagerPath(stdout: Option<string>): (r: Option<string>)
    ensures stdout.None? ==> r.None?
    ensures stdout.Some? ==> r == LinuxTitlePath(Trim(stdout.value))
    ensures r.Some? ==> Trim(r.value) == r.value
  {
    match stdout
    case None => None
    case Some(out) =>
      LinuxTitlePathTrimmed(Trim(out));
      LinuxTitlePath(Trim(out))
  }

  /** The outputs of the automation calls of one invocation; `None` is a call that threw. */
  datatype Observations = Observations(
    finderFrontmost: Option<string>,
    finderHasWindows: Option<string>,
    finderInsertionLocation: Option<string>,
    explorerWindowPath: Option<string>,
    activeWindowTitle: Option<string>)

  /** `getCurrentExplorerPath`: the locator of the host platform decides. */
  function CurrentExplorerPath(platform: Platform, obs: Observations): (r: Option<string>)
    ensures platform == MacOS ==> r == FinderPath(platform, obs.finderFrontmost, obs.finderHasWindows, obs.finderInsertionLocation)
    ensures platform == Windows ==> r == WindowsExplorerPath(obs.explorerWindowPath)
    ensures platform == Linux ==> r == LinuxFileManagerPath(obs.activeWindowTitle)
    ensures r.Some? ==> Trim(r.value) == r.value
  {
    match platform
    case MacOS => FinderPath(platform, obs.finderFrontmost, obs.finderHasWindows, obs.finderInsertionLocation)
    case Windows => WindowsExplorerPath(obs.explorerWindowPath)
    case Linux => LinuxFileManagerPath(obs.activeWindowTitle)
  }
}

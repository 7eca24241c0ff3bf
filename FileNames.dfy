/**
 * Turning the user's free-text argument into a name and an extension, and choosing
 * a name that does not collide with the entries already present in a directory
 * ("name.ext", then "name 2.ext", "name 3.ext", ...).
 */
module FileNames {
  import opened Wrappers
  import opened Text

  datatype ParsedFileName = ParsedFileName(name: string, extension: string)

  const DEFAULT_NAME := "default"
  const DEFAULT_EXTENSION := "txt"

  /**
   * `parseFileName`. The input is trimmed first. A blank input gives the default
   * name; otherwise the split is at the LAST dot, where an empty name part makes the
   * extension serve as the name too; an input without a dot keeps the whole text as
   * the name with the default extension. The extension may be empty ("foo.").
   */
  function ParseFileName(fileName: string): (p: ParsedFileName)
    ensures Trim(fileName) == [] ==> p == ParsedFileName(DEFAULT_NAME, DEFAULT_EXTENSION)
    ensures Trim(fileName) != [] && '.' !in Trim(fileName) ==> p == ParsedFileName(Trim(fileName), DEFAULT_EXTENSION)
    ensures '.' in Trim(fileName) ==> '.' !in p.extension
    ensures '.' in Trim(fileName) && Trim(fileName)[0] != '.' ==>
      p.name != [] && p.name + "." + p.extension == Trim(fileName)
    ensures '.' in Trim(fileName) && Trim(fileName)[0] == '.' && '.' !in Trim(fileName)[1..] ==>
      p.name == p.extension == Trim(fileName)[1..]
    ensures '.' in Trim(fileName) && Trim(fileName)[0] == '.' && '.' in Trim(fileName)[1..] ==>
      p.name + "." + p.extension == Trim(fileName)
  {
    var trimmed := Trim(fileName);
    if trimmed == [] then ParsedFileName(DEFAULT_NAME, DEFAULT_EXTENSION)
    else if '.' in trimmed then
      var lastDot := LastIndexOf(trimmed, '.').value;
      var name := trimmed[..lastDot];
      var extension := trimmed[lastDot + 1..];
      SplitAround(trimmed, lastDot);
      if name == [] then ParsedFileName(extension, extension) else ParsedFileName(name, extension)
    else ParsedFileName(trimmed, DEFAULT_EXTENSION)
  }

  /** Cutting out the character at `i` leaves the text before and after it. */
  lemma SplitAround(t: string, i: nat)
    requires i < |t|
    ensures t == t[..i] + [t[i]] + t[i + 1..]
  {
  }

  /**
   * Joining a name and an extension and parsing the result gives them back, as long
   * as the joined text is already trimmed, the name is non-empty and the extension
   * holds no dot.
   */
  lemma ParseJoined(name: string, extension: string)
    requires name != [] && !IsWhitespace(name[0])
    requires extension != [] ==> !IsWhitespace(extension[|extension| - 1])
    requires '.' !in extension
    ensures ParseFileName(name + "." + extension) == ParsedFileName(name, extension)
  {
    var joined := name + "." + extension;
    assert joined[0] == name[0];
    assert joined[|joined| - 1] == if extension == [] then '.' else extension[|extension| - 1];
    TrimUnchanged(joined);
    assert joined[|name|] == '.' && joined[|name| + 1..] == extension;
    LastIndexOfAt(joined, '.', |name|);
    assert joined[..|name|] == name;
  }

  /** "a.b.txt" splits at the last dot. */
  lemma ParseSplitsAtLastDot(fileName: string)
    requires fileName == "a.b.txt"
    ensures ParseFileName(fileName) == ParsedFileName("a.b", "txt")
  {
    assert fileName == "a.b" + "." + "txt";
    ParseJoined("a.b", "txt");
  }

  /** "foo." has an empty extension. */
  lemma ParseEmptyExtension(fileName: string)
    requires fileName == "foo."
    ensures ParseFileName(fileName) == ParsedFileName("foo", "")
  {
    assert fileName == "foo" + "." + "";
    ParseJoined("foo", "");
  }

  /** Only the trimmed text matters. */
  lemma ParseDependsOnlyOnTrim(fileName: string)
    ensures ParseFileName(Trim(fileName)) == ParseFileName(fileName)
  {
    TrimIdempotent(fileName);
  }

  /** A trimmed text whose only dot is its first character is parsed with the rest as both name and extension. */
  lemma ParseOnlyLeadingDot(t: string)
    requires t != [] && t[0] == '.' && '.' !in t[1..] && !IsWhitespace(t[|t| - 1])
    ensures ParseFileName(t) == ParsedFileName(t[1..], t[1..])
  {
    TrimUnchanged(t);
  }

  /** ".env" reuses the extension as the name, and "." gives two empty parts. */
  lemma ParseLeadingDotExamples(env: string, dot: string)
    requires env == ".env" && dot == "."
    ensures ParseFileName(env) == ParsedFileName("env", "env")
    ensures ParseFileName(dot) == ParsedFileName("", "")
  {
    ParseOnlyLeadingDot(env);
    assert env[1..] == "env";
    ParseOnlyLeadingDot(dot);
  }

  /** Padding around a dotless core is dropped and the core gets the default extension. */
  lemma ParsePaddedDotless(before: string, core: string, after: string)
    requires AllWhitespace(before) && AllWhitespace(after)
    requires core != [] && !IsWhitespace(core[0]) && !IsWhitespace(core[|core| - 1])
    requires '.' !in core
    ensures ParseFileName(before + core + after) == ParsedFileName(core, DEFAULT_EXTENSION)
  {
    TrimStrips(before, core, after);
  }

  /** Blank input gets the default name. */
  lemma ParseBlankExamples(empty: string, blank: string)
    requires empty == "" && blank == "   "
    ensures ParseFileName(empty) == ParsedFileName(DEFAULT_NAME, DEFAULT_EXTENSION)
    ensures ParseFileName(blank) == ParsedFileName(DEFAULT_NAME, DEFAULT_EXTENSION)
  {
    assert Trim(empty) == [];
    assert Trim(blank) == [] by {
      TrimStrips(blank, "", "");
      assert blank + "" + "" == blank;
    }
  }

  /** "  notes " is the name "notes" with the default extension. */
  lemma ParseDotlessExample(fileName: string)
    requires fileName == "  notes "
    ensures ParseFileName(fileName) == ParsedFileName("notes", DEFAULT_EXTENSION)
  {
    assert fileName == "  " + "notes" + " ";
    ParsePaddedDotless("  ", "notes", " ");
  }

  /** The i-th candidate the search tries: "name.ext" first, then "name k.ext" for k = 2, 3, ... */
  function Candidate(name: string, extension: string, k: nat): (c: string)
    requires k >= 1
    ensures |c| > |name| + |extension| && c[..|name|] == name
    ensures c[|c| - |extension| - 1] == '.' && c[|c| - |extension|..] == extension
    ensures k >= 2 ==> c[|name|] == ' '
    ensures k == 1 <==> |c| == |name| + 1 + |extension|
  {
    if k == 1 then name + "." + extension else name + " " + NatToString(k) + "." + extension
  }

  /** Distinct counters give distinct candidates. */
  lemma CandidateInjective(name: string, extension: string, j: nat, k: nat)
    requires j >= 1 && k >= 1
    requires Candidate(name, extension, j) == Candidate(name, extension, k)
    ensures j == k
  {
    if j >= 2 && k >= 2 {
      var dj, dk := NatToString(j), NatToString(k);
      var cj, ck := Candidate(name, extension, j), Candidate(name, extension, k);
      assert |dj| == |dk|;
      assert cj[|name| + 1..|name| + 1 + |dj|] == dj;
      assert ck[|name| + 1..|name| + 1 + |dk|] == dk;
      NatToStringInjective(j, k);
    }
  }

  /** Pigeonhole: n distinct candidates, all present, need at least n entries. */
  lemma {:induction false} CandidatesBound(existing: set<string>, name: string, extension: string, n: nat)
    requires forall j :: 1 <= j <= n ==> Candidate(name, extension, j) in existing
    ensures n <= |existing|
  {
    if n > 0 {
      var last := Candidate(name, extension, n);
      var rest := existing - {last};
      forall j | 1 <= j <= n - 1 ensures Candidate(name, extension, j) in rest {
        if Candidate(name, extension, j) == last {
          CandidateInjective(name, extension, j, n);
        }
      }
      CandidatesBound(rest, name, extension, n - 1);
    }
  }

  /**
   * `r` is what the search must return: the candidate with the least counter that is
   * not present, every earlier candidate being present.
   */
  ghost predicate IsFirstFree(existing: set<string>, name: string, extension: string, r: string) {
    exists k :: k >= 1 && r == Candidate(name, extension, k) && r !in existing
      && forall j :: 1 <= j < k ==> Candidate(name, extension, j) in existing
  }

  /** The search from the k-th candidate on, knowing the earlier ones are all present. */
  function FirstFreeFrom(existing: set<string>, name: string, extension: string, k: nat): (r: string)
    requires k >= 1
    requires forall j :: 1 <= j < k ==> Candidate(name, extension, j) in existing
    ensures IsFirstFree(existing, name, extension, r)
    decreases |existing| + 1 - k
  {
    if Candidate(name, extension, k) !in existing then Candidate(name, extension, k)
    else
      CandidatesBound(existing, name, extension, k);
      FirstFreeFrom(existing, name, extension, k + 1)
  }

  /** The name `buildUniqueFileName` settles on, as a function of the entries present. */
  function UniqueFileName(existing: set<string>, name: string, extension: string): (r: string)
    ensures r !in existing
    ensures IsFirstFree(existing, name, extension, r)
  {
    FirstFreeFrom(existing, name, extension, 1)
  }

  /** The first-free property singles out one name: the search is deterministic. */
  lemma FirstFreeIsUnique(existing: set<string>, name: string, extension: string, r1: string, r2: string)
    requires IsFirstFree(existing, name, extension, r1)
    requires IsFirstFree(existing, name, extension, r2)
    ensures r1 == r2
  {
    var k1 :| k1 >= 1 && r1 == Candidate(name, extension, k1) && r1 !in existing
      && forall j :: 1 <= j < k1 ==> Candidate(name, extension, j) in existing;
    var k2 :| k2 >= 1 && r2 == Candidate(name, extension, k2) && r2 !in existing
      && forall j :: 1 <= j < k2 ==> Candidate(name, extension, j) in existing;
    assert !(k1 < k2) && !(k2 < k1);
  }

  /**
   * `buildUniqueFileName`: tries "name.ext", then "name 2.ext", "name 3.ext", ...
   * and stops at the first one that is not present. `existing` stands for the
   * entries of the target directory that `fs.existsSync` reports.
   */
  method BuildUniqueFileName(existing: set<string>, name: string, extension: string) returns (fileName: string)
    ensures fileName == UniqueFileName(existing, name, extension)
    ensures fileName !in existing
    ensures name + "." + extension !in existing ==> fileName == name + "." + extension
  {
    fileName := name + "." + extension;
    var counter := 2;
    while fileName in existing
      invariant counter >= 2
      invariant fileName == Candidate(name, extension, counter - 1)
      invariant forall j :: 1 <= j < counter - 1 ==> Candidate(name, extension, j) in existing
      invariant UniqueFileName(existing, name, extension) == FirstFreeFrom(existing, name, extension, counter - 1)
      decreases |existing| + 2 - counter
    {
      CandidatesBound(existing, name, extension, counter - 1);
      fileName := name + " " + NatToString(counter) + "." + extension;
      counter := counter + 1;
    }
  }

  /** An empty directory gets "name.ext". */
  lemma UniqueInEmptyDirectory(name: string, extension: string)
    ensures UniqueFileName({}, name, extension) == name + "." + extension
  {
    assert IsFirstFree({}, name, extension, Candidate(name, extension, 1));
    FirstFreeIsUnique({}, name, extension, UniqueFileName({}, name, extension), name + "." + extension);
  }

  /** With "name.ext" present the result is "name 2.ext"; with "name 2.ext" present too, "name 3.ext". */
  lemma UniqueAfterTakenNames(name: string, extension: string)
    ensures UniqueFileName({name + "." + extension}, name, extension) == name + " 2." + extension
    ensures UniqueFileName({name + "." + extension, name + " 2." + extension}, name, extension) == name + " 3." + extension
  {
    var c1, c2, c3 := Candidate(name, extension, 1), Candidate(name, extension, 2), Candidate(name, extension, 3);
    assert c2 == name + " 2." + extension;
    assert c3 == name + " 3." + extension;
    assert c2 != c1 by { if c2 == c1 { CandidateInjective(name, extension, 2, 1); } }
    assert c3 != c1 by { if c3 == c1 { CandidateInjective(name, extension, 3, 1); } }
    assert c3 != c2 by { if c3 == c2 { CandidateInjective(name, extension, 3, 2); } }
    var one, two := {c1}, {c1, c2};
    assert IsFirstFree(one, name, extension, c2);
    FirstFreeIsUnique(one, name, extension, UniqueFileName(one, name, extension), c2);
    assert IsFirstFree(two, name, extension, c3);
    FirstFreeIsUnique(two, name, extension, UniqueFileName(two, name, extension), c3);
  }
}

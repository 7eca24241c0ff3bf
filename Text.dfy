/**
 * The JavaScript string primitives the extension relies on: `String.prototype.trim`,
 * the regular-expression class `\s`, `lastIndexOf` and the decimal rendering of a
 * counter in a template literal. Strings are sequences of Unicode scalar values.
 */
module Text {
  import opened Wrappers

  /** ECMAScript LineTerminator: LF, CR, LINE SEPARATOR, PARAGRAPH SEPARATOR. */
  predicate IsLineTerminator(c: char) {
    c == '\n' || c == '\r' || c == '\U{2028}' || c == '\U{2029}'
  }

  /**
   * ECMAScript WhiteSpace or LineTerminator: exactly what `trim` strips and what
   * the regular-expression class `\s` matches (TAB, VT, FF, ZWNBSP and the
   * Unicode space separators).
   */
  predicate IsWhitespace(c: char)
    ensures IsLineTerminator(c) ==> IsWhitespace(c)
  {
    || IsLineTerminator(c)
    || c == '\t' || c == '\U{000B}' || c == '\U{000C}' || c == ' ' || c == '\U{00A0}'
    || c == '\U{1680}' || ('\U{2000}' <= c <= '\U{200A}') || c == '\U{202F}' || c == '\U{205F}'
    || c == '\U{3000}' || c == '\U{FEFF}'
  }

  predicate AllWhitespace(s: string) {
    forall i :: 0 <= i < |s| ==> IsWhitespace(s[i])
  }

  /** Drops the leading whitespace: what remains is a suffix that starts with a non-whitespace character. */
  function TrimStart(s: string): (r: string)
    ensures |r| <= |s| && r == s[|s| - |r|..]
    ensures r != [] ==> !IsWhitespace(r[0])
    ensures AllWhitespace(s[..|s| - |r|])
  {
    if s != [] && IsWhitespace(s[0]) then
      var r := TrimStart(s[1..]);
      assert s[..|s| - |r|] == [s[0]] + s[1..][..|s| - 1 - |r|];
      r
    else s
  }

  /** Drops the trailing whitespace: what remains is a prefix that ends with a non-whitespace character. */
  function TrimEnd(s: string): (r: string)
    ensures |r| <= |s| && r == s[..|r|]
    ensures r != [] ==> !IsWhitespace(r[|r| - 1])
    ensures AllWhitespace(s[|r|..])
  {
    if s != [] && IsWhitespace(s[|s| - 1]) then TrimEnd(s[..|s| - 1]) else s
  }

  /** `String.prototype.trim`: drops the leading and the trailing whitespace. */
  function Trim(s: string): (r: string)
    ensures |r| <= |s|
    ensures r != [] ==> !IsWhitespace(r[0]) && !IsWhitespace(r[|r| - 1])
    ensures r == [] <==> AllWhitespace(s)
  {
    var t := TrimStart(s);
    var r := TrimEnd(t);
    assert r == [] ==> AllWhitespace(s) by {
      if r == [] {
        forall i | 0 <= i < |s| ensures IsWhitespace(s[i]) {
          assert s[..|s| - |t|][i] == s[i];
        }
      }
    }
    r
  }

  /** A prefix of a suffix is a slice, and what follows it is the rest of the suffix. */
  lemma PrefixOfSuffix(s: string, t: string, r: string, a: nat)
    requires a <= |s| && t == s[a..] && |r| <= |t| && r == t[..|r|]
    ensures r == s[a..a + |r|] && s[a + |r|..] == t[|r|..]
  {
  }

  /**
   * What `trim` keeps is a slice of the input bordered on both sides only by
   * whitespace; with the ends of Trim this pins the result down uniquely.
   */
  lemma TrimIsBorderedSlice(s: string)
    ensures var r := Trim(s);
      exists a :: 0 <= a <= |s| - |r| && r == s[a..a + |r|] && AllWhitespace(s[..a]) && AllWhitespace(s[a + |r|..])
  {
    var t := TrimStart(s);
    var r := TrimEnd(t);
    var a := |s| - |t|;
    PrefixOfSuffix(s, t, r, a);
    assert AllWhitespace(s[..a]) && AllWhitespace(s[a + |r|..]);
  }

  /** A string that neither starts nor ends with whitespace is its own trim. */
  lemma TrimUnchanged(s: string)
    requires s != [] ==> !IsWhitespace(s[0]) && !IsWhitespace(s[|s| - 1])
    ensures Trim(s) == s
  {
    TrimIsBorderedSlice(s);
    var r := Trim(s);
    var a :| 0 <= a <= |s| - |r| && r == s[a..a + |r|] && AllWhitespace(s[..a]) && AllWhitespace(s[a + |r|..]);
  }

  /** TrimStart removes exactly a whitespace prefix that is followed by a non-whitespace character. */
  lemma {:induction false} TrimStartSkips(ws: string, rest: string)
    requires AllWhitespace(ws)
    requires rest != [] ==> !IsWhitespace(rest[0])
    ensures TrimStart(ws + rest) == rest
  {
    if ws != [] {
      assert (ws + rest)[1..] == ws[1..] + rest;
      TrimStartSkips(ws[1..], rest);
    }
  }

  /** TrimEnd removes exactly a whitespace suffix that is preceded by a non-whitespace character. */
  lemma {:induction false} TrimEndSkips(rest: string, ws: string)
    requires AllWhitespace(ws)
    requires rest != [] ==> !IsWhitespace(rest[|rest| - 1])
    ensures TrimEnd(rest + ws) == rest
  {
    if ws != [] {
      assert (rest + ws)[..|rest + ws| - 1] == rest + ws[..|ws| - 1];
      TrimEndSkips(rest, ws[..|ws| - 1]);
    }
  }

  /** Whitespace around a core that neither starts nor ends with whitespace is exactly what `trim` removes. */
  lemma TrimStrips(before: string, core: string, after: string)
    requires AllWhitespace(before) && AllWhitespace(after)
    requires core != [] ==> !IsWhitespace(core[0]) && !IsWhitespace(core[|core| - 1])
    ensures Trim(before + core + after) == core
  {
    var s := before + core + after;
    if core == [] {
      assert AllWhitespace(s) by {
        forall i | 0 <= i < |s| ensures IsWhitespace(s[i]) {
          if i < |before| { assert s[i] == before[i]; } else { assert s[i] == after[i - |before|]; }
        }
      }
    } else {
      assert s == before + (core + after);
      TrimStartSkips(before, core + after);
      TrimEndSkips(core, after);
    }
  }

  /** A word with only whitespace around it trims to the word. */
  lemma TrimPaddedWordAt(s: string, w: string, a: nat)
    requires w != [] && !IsWhitespace(w[0]) && !IsWhitespace(w[|w| - 1])
    requires a + |w| <= |s| && s[a..a + |w|] == w && AllWhitespace(s[..a]) && AllWhitespace(s[a + |w|..])
    ensures Trim(s) == w
  {
    assert s == s[..a] + w + s[a + |w|..];
    TrimStrips(s[..a], w, s[a + |w|..]);
  }

  /** A text that trims to `w` is `w` with only whitespace around it. */
  lemma TrimToWordIsPadded(s: string, w: string)
    requires Trim(s) == w
    ensures exists a :: 0 <= a <= |s| - |w| && w == s[a..a + |w|] && AllWhitespace(s[..a]) && AllWhitespace(s[a + |w|..])
  {
    TrimIsBorderedSlice(s);
  }

  /** A text trims to an unpadded word exactly when it is that word with only whitespace around it. */
  lemma TrimIsPaddedWord(s: string, w: string)
    requires w != [] && !IsWhitespace(w[0]) && !IsWhitespace(w[|w| - 1])
    ensures Trim(s) == w <==>
      exists a :: 0 <= a <= |s| - |w| && w == s[a..a + |w|] && AllWhitespace(s[..a]) && AllWhitespace(s[a + |w|..])
  {
    if Trim(s) == w {
      TrimToWordIsPadded(s, w);
    } else {
      forall a | 0 <= a <= |s| - |w| && w == s[a..a + |w|] && AllWhitespace(s[..a])
        ensures !AllWhitespace(s[a + |w|..])
      {
        if AllWhitespace(s[a + |w|..]) {
          TrimPaddedWordAt(s, w, a);
        }
      }
    }
  }

  /** Trimming twice is trimming once. */
  lemma TrimIdempotent(s: string)
    ensures Trim(Trim(s)) == Trim(s)
  {
    TrimUnchanged(Trim(s));
  }

  /** `lastIndexOf`: the position of the last occurrence of `c`, or none when `c` does not occur. */
  function LastIndexOf(s: string, c: char): (r: Option<nat>)
    ensures r.None? <==> c !in s
    ensures r.Some? ==> r.value < |s| && s[r.value] == c && c !in s[r.value + 1..]
  {
    if s == [] then None
    else if s[|s| - 1] == c then Some(|s| - 1)
    else
      var r := LastIndexOf(s[..|s| - 1], c);
      assert s == s[..|s| - 1] + [s[|s| - 1]];
      if r.Some? then
        assert s[r.value + 1..] == s[..|s| - 1][r.value + 1..] + [s[|s| - 1]];
        r
      else r
  }

  /** A position holding `c` with no `c` after it is the one `lastIndexOf` finds. */
  lemma LastIndexOfAt(s: string, c: char, i: nat)
    requires i < |s| && s[i] == c && c !in s[i + 1..]
    ensures LastIndexOf(s, c) == Some(i)
  {
    assert c in s by { assert s[i] == c; }
  }

  /** The decimal digit `d` as a character. */
  function Digit(d: nat): (c: char)
    requires d < 10
    ensures '0' <= c <= '9' && c as int - '0' as int == d
  {
    "0123456789"[d]
  }

  predicate IsDecimal(s: string) {
    forall i :: 0 <= i < |s| ==> '0' <= s[i] <= '9'
  }

  /** The decimal rendering JavaScript uses for a non-negative integer in a template literal. */
  function NatToString(n: nat): (s: string)
    ensures s != [] && IsDecimal(s)
    ensures s[0] == '0' ==> n == 0
  {
    if n < 10 then [Digit(n)] else NatToString(n / 10) + [Digit(n % 10)]
  }

  /** The number a string of decimal digits denotes: the reference partner of NatToString. */
  function DecimalValue(s: string): nat
    requires IsDecimal(s)
  {
    if s == [] then 0 else 10 * DecimalValue(s[..|s| - 1]) + (s[|s| - 1] as int - '0' as int)
  }

  /** Reading back the rendering of `n` gives `n`. */
  lemma {:induction false} DecimalValueOfNatToString(n: nat)
    ensures DecimalValue(NatToString(n)) == n
  {
    if n >= 10 {
      var s := NatToString(n);
      assert s[..|s| - 1] == NatToString(n / 10);
      DecimalValueOfNatToString(n / 10);
    }
  }

  /** Different counters render differently. */
  lemma NatToStringInjective(m: nat, n: nat)
    requires NatToString(m) == NatToString(n)
    ensures m == n
  {
    DecimalValueOfNatToString(m);
    DecimalValueOfNatToString(n);
  }
}

/**
 * The three Python `str` methods the listing record is built from:
 * `rstrip(chars)`, `strip()` (after the pydantic setting that trims every
 * string field) and `endswith(suffix)`.
 *
 * Python treats the argument of `rstrip`/`strip` as a SET of characters,
 * not as a suffix: a trailing run of characters drawn from that set is
 * removed, whatever their order.  The functions below take that set
 * explicitly; `strip()` without an argument uses `Whitespace`.
 */
module PyStr {

  /** Python 3's whitespace (`str.isspace`): what `str.strip()` removes when
      called without an argument. */
  const Whitespace: set<char> := {
    '\t', '\n', '\U{B}', '\U{C}', '\r',
    '\U{1C}', '\U{1D}', '\U{1E}', '\U{1F}',
    ' ', '\U{85}', '\U{A0}', '\U{1680}',
    '\U{2000}', '\U{2001}', '\U{2002}', '\U{2003}', '\U{2004}', '\U{2005}',
    '\U{2006}', '\U{2007}', '\U{2008}', '\U{2009}', '\U{200A}',
    '\U{2028}', '\U{2029}', '\U{202F}', '\U{205F}', '\U{3000}'
  }

  /** Every character of `t` is drawn from `chars`. */
  predicate AllIn(t: string, chars: set<char>) {
    forall k | 0 <= k < |t| :: t[k] in chars
  }

  /** `t` neither starts nor ends with a character of `chars`. */
  predicate Trimmed(t: string, chars: set<char>) {
    t == [] || (t[0] !in chars && t[|t| - 1] !in chars)
  }

  /** `p` is a prefix of `s`. */
  predicate IsPrefix(p: string, s: string) {
    |p| <= |s| && p == s[..|p|]
  }

  /** Python's `s.rstrip(chars)`: drop the longest trailing run of characters
      that all belong to `chars`.  The result is the prefix of `s` that keeps
      everything up to the last character outside `chars`. */
  function RStrip(s: string, chars: set<char>): (r: string)
    ensures IsPrefix(r, s)
    ensures AllIn(s[|r|..], chars)
    ensures r == [] || r[|r| - 1] !in chars
    decreases |s|
  {
    if |s| > 0 && s[|s| - 1] in chars then RStrip(s[..|s| - 1], chars) else s
  }

  /** `s == s[..i] + r + s[i + |r|..]` with both outer parts drawn from `chars`. */
  predicate StripsTo(s: string, r: string, i: int, chars: set<char>) {
    && 0 <= i <= |s| - |r|
    && r == s[i..i + |r|]
    && AllIn(s[..i], chars)
    && AllIn(s[i + |r|..], chars)
  }

  /** Python's `s.strip(chars)`: remove a leading and a trailing run of
      characters from `chars` (the leading run first, then `RStrip`).  The
      result is a slice of `s` that neither starts nor ends with such a
      character, and only characters of `chars` were cut on either side. */
  function Strip(s: string, chars: set<char>): (r: string)
    ensures Trimmed(r, chars)
    ensures exists i :: StripsTo(s, r, i, chars)
    decreases |s|
  {
    if |s| > 0 && s[0] in chars then
      var r := Strip(s[1..], chars);
      assert forall i | StripsTo(s[1..], r, i, chars) :: StripsTo(s, r, i + 1, chars) by {
        forall i | StripsTo(s[1..], r, i, chars) ensures StripsTo(s, r, i + 1, chars) {
          assert s[..i + 1] == [s[0]] + s[1..][..i];
          assert s[i + 1 + |r|..] == s[1..][i + |r|..];
        }
      }
      r
    else
      var r := RStrip(s, chars);
      assert StripsTo(s, r, 0, chars);
      r
  }

  /** Python's `s.endswith(suffix)`, compared from the right one character at
      a time; it agrees with comparing the last `|suffix|` characters. */
  function EndsWith(s: string, suffix: string): (b: bool)
    ensures b <==> |suffix| <= |s| && s[|s| - |suffix|..] == suffix
    decreases |suffix|
  {
    if suffix == [] then true
    else
      && |s| > 0
      && s[|s| - 1] == suffix[|suffix| - 1]
      && EndsWith(s[..|s| - 1], suffix[..|suffix| - 1])
  }

  // ---------------------------------------------------------------------
  // Properties of the strip functions

  /** The three properties in RStrip's contract pin its result down: any
      prefix of `s` that is maximal and cuts only characters of `chars` is
      `RStrip(s, chars)`. */
  lemma RStripUnique(s: string, chars: set<char>, p: string)
    requires IsPrefix(p, s)
    requires AllIn(s[|p|..], chars)
    requires p == [] || p[|p| - 1] !in chars
    ensures p == RStrip(s, chars)
  {
  }

  /** Stripping twice with the same set strips nothing more. */
  lemma RStripIdempotent(s: string, chars: set<char>)
    ensures RStrip(RStrip(s, chars), chars) == RStrip(s, chars)
  {
  }

  /** A string that does not end in a character of `chars` is left alone. */
  lemma RStripNoop(s: string, chars: set<char>)
    requires s == [] || s[|s| - 1] !in chars
    ensures RStrip(s, chars) == s
  {
  }

  /** Appending characters of `chars` does not change the right-strip. */
  lemma {:induction false} RStripAppend(s: string, t: string, chars: set<char>)
    requires AllIn(t, chars)
    ensures RStrip(s + t, chars) == RStrip(s, chars)
  {
    var r := RStrip(s, chars);
    assert (s + t)[..|r|] == s[..|r|];
    assert AllIn((s + t)[|r|..], chars) by {
      forall k | 0 <= k < |(s + t)[|r|..]| ensures (s + t)[|r|..][k] in chars {
        if |r| + k < |s| {
          assert (s + t)[|r|..][k] == s[|r|..][k];
        } else {
          assert (s + t)[|r|..][k] == t[|r| + k - |s|];
        }
      }
    }
    RStripUnique(s + t, chars, r);
  }

  /** The slice `strip` keeps is pinned down by its contract: a trimmed
      slice of `s` with only characters of `chars` cut on either side is
      `Strip(s, chars)`. */
  lemma StripUnique(s: string, chars: set<char>, core: string, i: int)
    requires StripsTo(s, core, i, chars) && Trimmed(core, chars)
    ensures Strip(s, chars) == core
  {
    var r := Strip(s, chars);
    var j :| StripsTo(s, r, j, chars);
    // Both slices start at the first character outside `chars` and end
    // after the last one; an empty slice means there is no such character.
    StripsToOutside(s, r, j, chars);
    StripsToOutside(s, core, i, chars);
    assert r != [] ==> s[j] == r[0] && s[j + |r| - 1] == r[|r| - 1];
    assert core != [] ==> s[i] == core[0] && s[i + |core| - 1] == core[|core| - 1];
  }

  /** The characters cut on either side of a `StripsTo` slice are in `chars`. */
  lemma StripsToOutside(s: string, r: string, i: int, chars: set<char>)
    requires StripsTo(s, r, i, chars)
    ensures forall k | 0 <= k < i :: s[k] in chars
    ensures forall k | i + |r| <= k < |s| :: s[k] in chars
  {
    forall k | 0 <= k < i ensures s[k] in chars {
      assert s[..i][k] == s[k];
    }
    forall k | i + |r| <= k < |s| ensures s[k] in chars {
      assert s[i + |r|..][k - i - |r|] == s[k];
    }
  }

  /** `strip` on a string that is already trimmed is a no-op. */
  lemma StripTrimmedNoop(s: string, chars: set<char>)
    requires Trimmed(s, chars)
    ensures Strip(s, chars) == s
  {
    assert s[..0] == [] && s[|s|..] == [];
    StripUnique(s, chars, s, 0);
  }

  /** `strip` is idempotent. */
  lemma StripIdempotent(s: string, chars: set<char>)
    ensures Strip(Strip(s, chars), chars) == Strip(s, chars)
  {
    StripTrimmedNoop(Strip(s, chars), chars);
  }
}

/**
 * The parts of C++ std::string (64-bit size_t) that the convert tool relies on:
 * find, find_last_of, substr, replace and the npos sentinel.
 */
module StdString {

  /** 2^64, the modulus of size_t arithmetic. */
  const SizeModulus: int := 0x1_0000_0000_0000_0000

  /** std::string::npos: size_t(-1). */
  const Npos: int := 0xFFFF_FFFF_FFFF_FFFF

  type SizeT = n: int | 0 <= n < 0x1_0000_0000_0000_0000

  /**
   * A std::string: its size is below max_size(), which is below npos. Each
   * char stands for one byte of the string (a code unit, not a decoded
   * character), so find, find_last_of and substr below are exact for any
   * encoding, including multi-byte ones where a backslash byte may be part of a
   * character.
   */
  type CppString = s: string | |s| < 0xFFFF_FFFF_FFFF_FFFF

  /** `pat` occurs in `s` starting at position `i`. */
  predicate OccursAt(s: string, pat: string, i: nat)
  {
    i + |pat| <= |s| && s[i..i + |pat|] == pat
  }

  /**
   * s.find(pat, pos): the first position at or after `pos` where `pat`
   * occurs, or npos when there is none. An empty `pat` occurs at every
   * position up to and including |s|.
   */
  function Find(s: CppString, pat: string, pos: SizeT): (r: SizeT)
    ensures r == Npos || (pos <= r <= |s| && OccursAt(s, pat, r))
    ensures forall j :: pos <= j < r ==> !OccursAt(s, pat, j)
    decreases if pos <= |s| then |s| - pos else 0
  {
    if pos > |s| then Npos
    else if OccursAt(s, pat, pos) then pos
    else if pos == |s| then Npos
    else Find(s, pat, pos + 1)
  }

  /**
   * The last position before `n` holding a character of `chars`, or npos;
   * s.find_last_of(chars) is LastOfBefore(s, chars, |s|).
   */
  function LastOfBefore(s: CppString, chars: set<char>, n: nat): (r: SizeT)
    requires n <= |s|
    ensures r == Npos || (r < n && s[r] in chars)
    ensures forall j :: (if r == Npos then 0 else r + 1) <= j < n ==> s[j] !in chars
    decreases n
  {
    if n == 0 then Npos
    else if s[n - 1] in chars then n - 1
    else LastOfBefore(s, chars, n - 1)
  }

  /** s.find_last_of(chars) with the default start position npos. */
  function FindLastOf(s: CppString, chars: set<char>): (r: SizeT)
    ensures r == Npos || (r < |s| && s[r] in chars)
    ensures forall j :: (if r == Npos then 0 else r + 1) <= j < |s| ==> s[j] !in chars
  {
    LastOfBefore(s, chars, |s|)
  }

  /** s.substr(pos, count): at most `count` characters starting at `pos`. */
  function Substr(s: string, pos: SizeT, count: SizeT): (r: string)
    requires pos <= |s|
    ensures |r| <= count && pos + |r| <= |s| && r == s[pos..pos + |r|]
    ensures |r| == count || pos + |r| == |s|
  {
    s[pos..pos + (if count < |s| - pos then count else |s| - pos)]
  }

  /**
   * s.replace(pos, count, str): the characters [pos, pos + count) of `s`,
   * clipped to its end, replaced by `str`.
   */
  function Replace(s: string, pos: SizeT, count: SizeT, str: string): (r: string)
    requires pos <= |s|
    ensures var removed := if count < |s| - pos then count else |s| - pos;
      && |r| == |s| - removed + |str|
      && r[..pos] == s[..pos]
      && r[pos..pos + |str|] == str
      && r[pos + |str|..] == s[pos + removed..]
  {
    s[..pos] + str + s[pos + (if count < |s| - pos then count else |s| - pos)..]
  }
}

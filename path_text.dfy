/**
 * The extension test both scripts share:
 *   os.path.splitext(path)[-1].strip(".").lower()
 * modelled for POSIX paths ('/' is the only separator) and ASCII case mapping.
 */
module PathText {

  /** str.rfind for one character: the index of the last `c` in `s`, or -1. */
  function RFind(s: string, c: char): (r: int)
    ensures -1 <= r < |s|
    ensures r == -1 ==> c !in s
    ensures r >= 0 ==> s[r] == c && c !in s[r + 1..]
  {
    if |s| == 0 then -1
    else if s[|s| - 1] == c then |s| - 1
    else
      assert s == s[..|s| - 1] + [s[|s| - 1]];
      RFind(s[..|s| - 1], c)
  }

  /** Some character of s[lo..hi] is not a dot. */
  predicate HasNonDot(s: string, lo: int, hi: int)
    requires 0 <= lo <= hi <= |s|
  {
    exists k :: lo <= k < hi && s[k] != '.'
  }

  /**
   * os.path.splitext on a POSIX path: the extension starts at the last dot
   * of the final path component, unless everything before that dot in the
   * component is a dot too (".png", "..png" have no extension).
   */
  function SplitExt(p: string): (parts: (string, string))
    ensures parts.0 + parts.1 == p
  {
    var sep := RFind(p, '/');
    var dot := RFind(p, '.');
    if dot > sep && HasNonDot(p, sep + 1, dot) then (p[..dot], p[dot..]) else (p, [])
  }

  /** str.lstrip(c) for one character: the longest suffix not starting with c. */
  function StripLeading(s: string, c: char): (r: string)
    ensures |r| <= |s| && r == s[|s| - |r|..]
    ensures r == [] || r[0] != c
  {
    if |s| > 0 && s[0] == c then StripLeading(s[1..], c) else s
  }

  /** str.rstrip(c) for one character: the longest prefix not ending with c. */
  function StripTrailing(s: string, c: char): (r: string)
    ensures |r| <= |s| && r == s[..|r|]
    ensures r == [] || r[|r| - 1] != c
  {
    if |s| > 0 && s[|s| - 1] == c then StripTrailing(s[..|s| - 1], c) else s
  }

  /** str.strip(c) for one character. */
  function Strip(s: string, c: char): (r: string)
    ensures |r| <= |s|
  {
    StripTrailing(StripLeading(s, c), c)
  }

  /** str.lower() on one character, for the ASCII letters. */
  function LowerChar(ch: char): char
  {
    if 'A' <= ch <= 'Z' then (ch as int - 'A' as int + 'a' as int) as char else ch
  }

  /** str.lower(), character by character. */
  function Lower(s: string): (r: string)
    ensures |r| == |s|
    ensures forall i :: 0 <= i < |s| ==> r[i] == LowerChar(s[i])
  {
    seq(|s|, i requires 0 <= i < |s| => LowerChar(s[i]))
  }

  /** Lower-casing never brings in a character that is not a letter. */
  lemma LowerKeepsOut(s: string, c: char)
    requires !('A' <= c <= 'Z') && !('a' <= c <= 'z')
    requires c !in s
    ensures c !in Lower(s)
  {
  }

  /** The suffix splitext returns loses exactly its leading dot to strip("."). */
  lemma StripOfSuffix(ext: string)
    requires ext != [] && ext[0] == '.' && '.' !in ext[1..]
    ensures Strip(ext, '.') == ext[1..]
  {
    var rest := ext[1..];
    assert StripLeading(ext, '.') == StripLeading(rest, '.');
    if rest != [] {
      assert rest[0] in rest;
      assert rest[|rest| - 1] in rest;
      assert StripLeading(rest, '.') == rest;
    }
  }

  /**
   * strip(c) leaves no c at either end, and returns a string that has none
   * there unchanged.
   */
  lemma StripSpec(s: string, c: char)
    ensures Strip(s, c) == [] || (Strip(s, c)[0] != c && Strip(s, c)[|Strip(s, c)| - 1] != c)
    ensures s == [] || (s[0] != c && s[|s| - 1] != c) ==> Strip(s, c) == s
  {
    var t := StripLeading(s, c);
    var r := StripTrailing(t, c);
    if r != [] {
      assert r[0] == t[0];
    }
    if s == [] || (s[0] != c && s[|s| - 1] != c) {
      assert t == s;
      assert r == t;
    }
  }

  /** What lstrip(c) drops is all c. */
  lemma {:induction false} StripLeadingDrops(s: string, c: char)
    ensures forall k :: 0 <= k < |s| - |StripLeading(s, c)| ==> s[k] == c
  {
    if |s| > 0 && s[0] == c {
      StripLeadingDrops(s[1..], c);
      forall k | 0 <= k < |s| - |StripLeading(s, c)|
        ensures s[k] == c
      {
        if k > 0 { assert s[k] == s[1..][k - 1]; }
      }
    }
  }

  /** What rstrip(c) drops is all c. */
  lemma {:induction false} StripTrailingDrops(s: string, c: char)
    ensures forall k :: |StripTrailing(s, c)| <= k < |s| ==> s[k] == c
  {
    if |s| > 0 && s[|s| - 1] == c {
      StripTrailingDrops(s[..|s| - 1], c);
      forall k | |StripTrailing(s, c)| <= k < |s|
        ensures s[k] == c
      {
        if k < |s| - 1 { assert s[k] == s[..|s| - 1][k]; }
      }
    }
  }

  /** strip(c) returns a middle slice of s, and everything it drops on either side is c. */
  lemma StripShape(s: string, c: char)
    ensures exists i, j ::
              && 0 <= i <= j <= |s| && Strip(s, c) == s[i..j]
              && (forall k :: 0 <= k < i ==> s[k] == c)
              && (forall k :: j <= k < |s| ==> s[k] == c)
  {
    var t := StripLeading(s, c);
    var r := StripTrailing(t, c);
    var i := |s| - |t|;
    var j := i + |r|;
    StripLeadingDrops(s, c);
    StripTrailingDrops(t, c);
    assert r == s[i..j];
    forall k | j <= k < |s|
      ensures s[k] == c
    {
      assert s[k] == t[k - i];
    }
  }

  /** The normalised extension: splitext(p)[-1].strip(".").lower(). */
  function Extension(p: string): (ext: string)
    ensures |ext| <= |p|
  {
    Lower(Strip(SplitExt(p).1, '.'))
  }

  /** When splitext finds a dot, the extension is what follows it, lower-cased. */
  lemma ExtensionAfterDot(p: string, sep: int, dot: int)
    requires sep == RFind(p, '/') && dot == RFind(p, '.')
    requires dot > sep && HasNonDot(p, sep + 1, dot)
    ensures Extension(p) == Lower(p[dot + 1..])
  {
    var ext := p[dot..];
    assert SplitExt(p).1 == ext;
    assert ext[1..] == p[dot + 1..];
    StripOfSuffix(ext);
  }

  /** When splitext finds no dot, the extension is empty. */
  lemma ExtensionEmpty(p: string, sep: int, dot: int)
    requires sep == RFind(p, '/') && dot == RFind(p, '.')
    requires !(dot > sep && HasNonDot(p, sep + 1, dot))
    ensures Extension(p) == []
  {
    assert SplitExt(p).1 == [];
    assert Strip([], '.') == [];
  }

  /** The last `c` of a + b lies in b if b has one, in a otherwise. */
  lemma {:induction false} RFindAppend(a: string, b: string, c: char)
    ensures RFind(a + b, c) == if c in b then |a| + RFind(b, c) else RFind(a, c)
    decreases |b|
  {
    if b != [] {
      var b' := b[..|b| - 1];
      assert (a + b)[..|a + b| - 1] == a + b';
      if b[|b| - 1] != c {
        RFindAppend(a, b', c);
        assert c in b <==> c in b' by {
          assert b == b' + [b[|b| - 1]];
        }
        assert RFind(b, c) == RFind(b', c);
      }
    } else {
      assert a + b == a;
    }
  }

  /** Lower-casing keeps every character that is not an upper-case letter. */
  lemma {:induction false} RFindLower(s: string, c: char)
    requires !('A' <= c <= 'Z') && !('a' <= c <= 'z')
    ensures RFind(Lower(s), c) == RFind(s, c)
    decreases |s|
  {
    if s != [] {
      var s' := s[..|s| - 1];
      assert Lower(s)[..|s| - 1] == Lower(s');
      RFindLower(s', c);
    }
  }

  lemma LowerSlice(s: string, i: nat)
    requires i <= |s|
    ensures Lower(s)[i..] == Lower(s[i..])
  {
  }

  lemma LowerTwice(s: string)
    ensures Lower(Lower(s)) == Lower(s)
  {
  }

  /** Searching past a prefix: the non-dot test and the suffix shift by its length. */
  lemma HasNonDotShift(pre: string, s: string, lo: int, hi: int)
    requires 0 <= lo <= hi <= |s|
    ensures HasNonDot(pre + s, |pre| + lo, |pre| + hi) <==> HasNonDot(s, lo, hi)
    ensures (pre + s)[|pre| + lo..] == s[lo..]
  {
    var p := pre + s;
    if HasNonDot(s, lo, hi) {
      var k :| lo <= k < hi && s[k] != '.';
      assert p[|pre| + k] == s[k];
    }
    if HasNonDot(p, |pre| + lo, |pre| + hi) {
      var k :| |pre| + lo <= k < |pre| + hi && p[k] != '.';
      assert s[k - |pre|] == p[k];
    }
  }
}

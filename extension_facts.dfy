/**
 * What the shared extension test decides, stated on the shape of the path
 * rather than on the steps of os.path.splitext, str.strip and str.lower.
 */
module ExtensionFacts {
  import opened PathText

  /**
   * A name whose final component is `stem` "." `e`, with a character other
   * than a dot in the stem's last component, has extension lower(e).
   */
  lemma ExtensionOfName(stem: string, e: string)
    requires '.' !in e && '/' !in e
    requires HasNonDot(stem, RFind(stem, '/') + 1, |stem|)
    ensures Extension(stem + ['.'] + e) == Lower(e)
  {
    NameSearch(stem, e);
    ExtensionAfterDot(stem + ['.'] + e, RFind(stem, '/'), |stem|);
  }

  /** Where splitext's two searches land in stem + "." + e. */
  lemma NameSearch(stem: string, e: string)
    requires '.' !in e && '/' !in e
    requires HasNonDot(stem, RFind(stem, '/') + 1, |stem|)
    ensures var p, sep := stem + ['.'] + e, RFind(stem, '/');
      RFind(p, '/') == sep && RFind(p, '.') == |stem| &&
      HasNonDot(p, sep + 1, |stem|) && p[|stem| + 1..] == e
  {
    var p := stem + ['.'] + e;
    RFindAppend(stem + ['.'], e, '.');
    RFindAppend(stem + ['.'], e, '/');
    RFindAppend(stem, ['.'], '.');
    RFindAppend(stem, ['.'], '/');
    var sep := RFind(stem, '/');
    var k :| sep + 1 <= k < |stem| && stem[k] != '.';
    assert p[k] == stem[k];
    assert p[|stem| + 1..] == e;
  }

  /** A final path component without a dot has no extension. */
  lemma ExtensionWithoutDot(p: string)
    requires '.' !in p[RFind(p, '/') + 1..]
    ensures Extension(p) == []
  {
    ExtensionEmpty(p, RFind(p, '/'), RFind(p, '.'));
  }

  /** Only the final path component decides the extension. */
  lemma ExtensionOfFinalComponent(dir: string, name: string)
    requires '/' !in name
    ensures Extension(dir + ['/'] + name) == Extension(name)
  {
    var pre := dir + ['/'];
    var p := pre + name;
    RFindAppend(pre, name, '/');
    RFindAppend(pre, name, '.');
    RFindAppend(dir, ['/'], '/');
    RFindAppend(dir, ['/'], '.');
    assert RFind(['/'], '/') == 0 && RFind(['/'], '.') == -1;
    var d := RFind(name, '.');
    assert RFind(p, '/') == |dir|;
    assert RFind(name, '/') == -1;
    if d >= 0 {
      assert RFind(p, '.') == |pre| + d;
      HasNonDotShift(pre, name, 0, d);
      HasNonDotShift(pre, name, d + 1, d + 1);
      if HasNonDot(name, 0, d) {
        ExtensionAfterDot(p, |dir|, |pre| + d);
        ExtensionAfterDot(name, -1, d);
      } else {
        ExtensionEmpty(p, |dir|, |pre| + d);
        ExtensionEmpty(name, -1, d);
      }
    } else {
      assert RFind(p, '.') < |dir|;
      ExtensionEmpty(p, |dir|, RFind(p, '.'));
      ExtensionEmpty(name, -1, d);
    }
  }

  /** Lower-casing does not create or remove dots. */
  lemma HasNonDotLower(p: string, lo: int, hi: int)
    requires 0 <= lo <= hi <= |p|
    ensures HasNonDot(Lower(p), lo, hi) <==> HasNonDot(p, lo, hi)
  {
    var q := Lower(p);
    if HasNonDot(p, lo, hi) {
      var k :| lo <= k < hi && p[k] != '.';
      assert q[k] == LowerChar(p[k]);
    }
    if HasNonDot(q, lo, hi) {
      var k :| lo <= k < hi && q[k] != '.';
      assert q[k] == LowerChar(p[k]);
    }
  }

  /** The extension test is insensitive to the letter case of the whole path. */
  lemma ExtensionIgnoresCase(p: string)
    ensures Extension(Lower(p)) == Extension(p)
  {
    var q := Lower(p);
    RFindLower(p, '/');
    RFindLower(p, '.');
    var sep, dot := RFind(p, '/'), RFind(p, '.');
    if dot > sep {
      HasNonDotLower(p, sep + 1, dot);
    }
    if dot > sep && HasNonDot(p, sep + 1, dot) {
      LowerSlice(p, dot + 1);
      LowerTwice(p[dot + 1..]);
      ExtensionAfterDot(p, sep, dot);
      ExtensionAfterDot(q, sep, dot);
    } else {
      ExtensionEmpty(p, sep, dot);
      ExtensionEmpty(q, sep, dot);
    }
  }

  /** The normalised extension never holds a dot or a path separator. */
  lemma ExtensionHasNoSeparator(p: string)
    ensures '.' !in Extension(p) && '/' !in Extension(p)
  {
    var sep, dot := RFind(p, '/'), RFind(p, '.');
    if dot > sep && HasNonDot(p, sep + 1, dot) {
      var tail := p[dot + 1..];
      assert '.' !in tail;
      assert '/' !in tail;
      ExtensionAfterDot(p, sep, dot);
      LowerKeepsOut(tail, '.');
      LowerKeepsOut(tail, '/');
    } else {
      ExtensionEmpty(p, sep, dot);
    }
  }
}

/** The two pieces of Python's standard library the updater relies on:
    `str.strip()` with no argument, and the root half of
    `os.path.splitext` under POSIX path rules. */
module PyLib {

  /** The characters Python's `str.isspace()` accepts: the ASCII controls
      tab to carriage return, the four information separators, space, and
      the Unicode spaces and line and paragraph separators. */
  const Whitespace: set<char> :=
    {'\t', '\n', '\U{0B}', '\U{0C}', '\r', '\U{1C}', '\U{1D}', '\U{1E}', '\U{1F}', ' ',
     '\U{85}', '\U{A0}', '\U{1680}', '\U{2000}', '\U{2001}', '\U{2002}', '\U{2003}',
     '\U{2004}', '\U{2005}', '\U{2006}', '\U{2007}', '\U{2008}', '\U{2009}', '\U{200A}',
     '\U{2028}', '\U{2029}', '\U{202F}', '\U{205F}', '\U{3000}'}

  predicate IsSpace(c: char)
  {
    c in Whitespace
  }

  /** `s` without its leading whitespace. */
  function LStrip(s: string): string
  {
    if s != [] && IsSpace(s[0]) then LStrip(s[1..]) else s
  }

  /** `s` without its trailing whitespace. */
  function RStrip(s: string): string
  {
    if s != [] && IsSpace(s[|s| - 1]) then RStrip(s[..|s| - 1]) else s
  }

  /** Python's `s.strip()`: never longer than `s`, and with no whitespace
      left at either end. */
  function Strip(s: string): (r: string)
    ensures |r| <= |s|
    ensures r == [] || (!IsSpace(r[0]) && !IsSpace(r[|r| - 1]))
  {
    var p := RStrip(s);
    RStripPrefix(s);
    LStripSuffix(p);
    var r := LStrip(p);
    assert r != [] ==> r[|r| - 1] == p[|p| - 1];
    r
  }

  /** `LStrip` removes a run of whitespace from the front and stops at the
      first other character. */
  lemma {:induction false} LStripSuffix(s: string)
    ensures var r := LStrip(s);
            |r| <= |s| && r == s[|s| - |r|..]
            && (r == [] || !IsSpace(r[0]))
            && forall k :: 0 <= k < |s| - |r| ==> IsSpace(s[k])
  {
    if s != [] && IsSpace(s[0]) {
      LStripSuffix(s[1..]);
    }
  }

  /** `RStrip` removes a run of whitespace from the back and stops at the
      last other character. */
  lemma {:induction false} RStripPrefix(s: string)
    ensures var r := RStrip(s);
            |r| <= |s| && r == s[..|r|]
            && (r == [] || !IsSpace(r[|r| - 1]))
            && forall k :: |r| <= k < |s| ==> IsSpace(s[k])
  {
    if s != [] && IsSpace(s[|s| - 1]) {
      RStripPrefix(s[..|s| - 1]);
    }
  }

  /** `Strip(s)` is the slice of `s` left after removing whitespace at both
      ends: it neither starts nor ends with whitespace, and everything cut
      off around it is whitespace. */
  lemma StripSlice(s: string) returns (a: nat)
    ensures var r := Strip(s);
            a + |r| <= |s| && r == s[a..a + |r|]
            && (forall k :: 0 <= k < a ==> IsSpace(s[k]))
            && (forall k :: a + |r| <= k < |s| ==> IsSpace(s[k]))
            && (r == [] || (!IsSpace(r[0]) && !IsSpace(r[|r| - 1])))
  {
    var p := RStrip(s);
    RStripPrefix(s);
    LStripSuffix(p);
    var r := Strip(s);
    a := |p| - |r|;
    assert p == s[..|p|];
    forall k | 0 <= k < a
      ensures IsSpace(s[k])
    {
      assert s[k] == p[k];
    }
    assert r == s[a..a + |r|];
    if r != [] {
      assert r[|r| - 1] == p[|p| - 1];
    }
  }

  /** A line that neither starts nor ends with whitespace is its own strip. */
  lemma StripUnpadded(s: string)
    requires s != [] && !IsSpace(s[0]) && !IsSpace(s[|s| - 1])
    ensures Strip(s) == s
  {
  }

  /** When `s` does not start with whitespace, its strip is a prefix of it. */
  lemma StripIsPrefix(s: string)
    requires s != [] && !IsSpace(s[0])
    ensures |Strip(s)| <= |s| && Strip(s) == s[..|Strip(s)|]
  {
    var p := RStrip(s);
    RStripPrefix(s);
    if p != [] {
      assert p[0] == s[0];
    }
  }

  /** Index of the last occurrence of `c` in `s`, or -1 (Python's `rfind`). */
  function RFind(s: string, c: char): (r: int)
    ensures -1 <= r < |s|
    ensures 0 <= r ==> s[r] == c
    ensures forall k :: r < k < |s| ==> s[k] != c
  {
    if s == [] then -1
    else if s[|s| - 1] == c then |s| - 1
    else RFind(s[..|s| - 1], c)
  }

  /** Characters appended after the last `c` do not move it. */
  lemma {:induction false} RFindAppend(s: string, t: string, c: char)
    requires forall k :: 0 <= k < |t| ==> t[k] != c
    ensures RFind(s + t, c) == RFind(s, c)
    decreases |t|
  {
    if t != [] {
      var t' := t[..|t| - 1];
      assert (s + t)[..|s + t| - 1] == s + t';
      RFindAppend(s, t', c);
    } else {
      assert s + t == s;
    }
  }

  /** A slash-free, dot-free extension after a dot leaves the last slash
      where it was. */
  lemma RFindSlashAfterExtension(stem: string, e: string)
    requires forall i :: 0 <= i < |e| ==> e[i] != '/' && e[i] != '.'
    ensures RFind(stem + "." + e, '/') == RFind(stem, '/')
  {
    RFindAppend(stem, ".", '/');
    RFindAppend(stem + ".", e, '/');
  }

  /** The last dot of `stem.e`, when `e` has none, is the one before `e`. */
  lemma RFindDotBeforeExtension(stem: string, e: string)
    requires forall i :: 0 <= i < |e| ==> e[i] != '.'
    ensures RFind(stem + "." + e, '.') == |stem|
  {
    RFindAppend(stem + ".", e, '.');
    assert (stem + ".")[|stem|] == '.';
  }

  /** The first half of POSIX `os.path.splitext(p)`: `p` without its
      extension. The extension starts at the last dot after the last slash,
      and only if some character other than a dot precedes that dot in the
      final path component (so a leading-dot name such as `.bashrc` has no
      extension). */
  function SplitExtRoot(p: string): (root: string)
    ensures |root| <= |p| && root == p[..|root|]
  {
    var sep := RFind(p, '/');
    var dot := RFind(p, '.');
    if sep < dot && exists k :: sep + 1 <= k < dot && p[k] != '.' then p[..dot] else p
  }

  /** What `SplitExtRoot` cuts off: nothing when the final component has no
      dot; otherwise a dot-led, slash-free, dot-free-after tail whose dot has
      a non-dot character before it in the final component. */
  lemma SplitExtRootSpec(p: string)
    ensures var root := SplitExtRoot(p);
            |root| < |p| ==>
              && p[|root|] == '.'
              && (forall k :: |root| <= k < |p| ==> p[k] != '/')
              && (forall k :: |root| < k < |p| ==> p[k] != '.')
              && (exists k :: RFind(p, '/') < k < |root| && p[k] != '.')
    ensures (forall k :: RFind(p, '/') < k < |p| ==> p[k] != '.') ==> SplitExtRoot(p) == p
  {
    var sep := RFind(p, '/');
    var dot := RFind(p, '.');
    if sep < dot && exists k :: sep + 1 <= k < dot && p[k] != '.' {
      assert SplitExtRoot(p) == p[..dot];
    }
  }

  /** The root is cut at the last dot when a non-dot character precedes it
      in the final component. */
  lemma SplitExtRootAt(p: string, dot: nat, k: nat)
    requires dot < |p| && RFind(p, '.') == dot
    requires RFind(p, '/') < k < dot && p[k] != '.'
    ensures SplitExtRoot(p) == p[..dot]
  {
  }

  /** Cutting the extension `.e` off `stem.e` gives back `stem`. */
  lemma SplitExtRootOfExtension(stem: string, e: string, k: nat)
    requires RFind(stem, '/') < k < |stem| && stem[k] != '.'
    requires forall i :: 0 <= i < |e| ==> e[i] != '/' && e[i] != '.'
    ensures SplitExtRoot(stem + "." + e) == stem
  {
    var p := stem + "." + e;
    RFindSlashAfterExtension(stem, e);
    RFindDotBeforeExtension(stem, e);
    assert p[k] == stem[k];
    SplitExtRootAt(p, |stem|, k);
    assert p[..|stem|] == stem;
  }
}

/** Python's `str.strip()` with no argument: removes leading and trailing
    whitespace, where whitespace is what `str.isspace()` accepts. */
module PyStr {

  /** The characters Python 3 treats as whitespace (`str.isspace`). */
  predicate IsSpace(c: char)
  {
    var n := c as int;
    (9 <= n <= 13) || (28 <= n <= 32) || n == 0x85 || n == 0xA0 || n == 0x1680
    || (0x2000 <= n <= 0x200A) || n == 0x2028 || n == 0x2029 || n == 0x202F
    || n == 0x205F || n == 0x3000
  }

  /** `s.lstrip()` */
  function LStrip(s: string): string
  {
    if |s| > 0 && IsSpace(s[0]) then LStrip(s[1..]) else s
  }

  /** `s.rstrip()` */
  function RStrip(s: string): string
  {
    if |s| > 0 && IsSpace(s[|s| - 1]) then RStrip(s[..|s| - 1]) else s
  }

  /** `s.lstrip()` is the suffix of `s` left after dropping every leading space. */
  lemma {:induction false} LStripTrims(s: string)
    ensures |LStrip(s)| <= |s| && LStrip(s) == s[|s| - |LStrip(s)|..]
    ensures LStrip(s) == [] || !IsSpace(LStrip(s)[0])
    ensures forall i :: 0 <= i < |s| - |LStrip(s)| ==> IsSpace(s[i])
  {
    if |s| > 0 && IsSpace(s[0]) {
      LStripTrims(s[1..]);
    }
  }

  /** `s.rstrip()` is the prefix of `s` left after dropping every trailing space. */
  lemma {:induction false} RStripTrims(s: string)
    ensures |RStrip(s)| <= |s| && RStrip(s) == s[..|RStrip(s)|]
    ensures RStrip(s) == [] || !IsSpace(RStrip(s)[|RStrip(s)| - 1])
    ensures forall i :: |RStrip(s)| <= i < |s| ==> IsSpace(s[i])
  {
    if |s| > 0 && IsSpace(s[|s| - 1]) {
      RStripTrims(s[..|s| - 1]);
    }
  }

  /** `s.strip()` */
  function Strip(s: string): string
  {
    RStrip(LStrip(s))
  }

  /** `Strip(s)` is the slice `s[a..b]` that is left once the maximal runs of
      spaces at both ends are removed: it neither starts nor ends with a
      space, and everything outside it is a space. */
  lemma StripTrims(s: string)
    ensures exists a, b ::
              && 0 <= a <= b <= |s| && Strip(s) == s[a..b]
              && (forall i :: 0 <= i < a ==> IsSpace(s[i]))
              && (forall i :: b <= i < |s| ==> IsSpace(s[i]))
    ensures Strip(s) == [] || (!IsSpace(Strip(s)[0]) && !IsSpace(Strip(s)[|Strip(s)| - 1]))
  {
    var l := LStrip(s);
    var r := RStrip(l);
    LStripTrims(s);
    RStripTrims(l);
    var a := |s| - |l|;
    var b := a + |r|;
    assert r == s[a..b];
    forall i | b <= i < |s| ensures IsSpace(s[i]) {
      assert s[i] == l[i - a];
    }
  }

  /** Stripping twice is the same as stripping once. */
  lemma StripIdempotent(s: string)
    ensures Strip(Strip(s)) == Strip(s)
  {
    var t := Strip(s);
    StripTrims(s);
    assert LStrip(t) == t;
    assert RStrip(t) == t;
  }
}

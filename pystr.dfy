/**
 * The few Python `str` operations the credential resolver relies on:
 * `str.isspace` (per character), `str.startswith`, `str.split(sep, 1)` with a
 * one-character separator, and `str.strip()` with no argument.
 */
module PyStr {
  import opened Wrappers

  /**
   * `c.isspace()`: the characters Python's `str.strip()` removes by default,
   * i.e. the ASCII controls TAB, LF, VT, FF, CR (U+0009 to U+000D) and FS, GS,
   * RS, US (U+001C to U+001F), SPACE, NEL, NO-BREAK SPACE, OGHAM SPACE MARK,
   * the spaces U+2000 to U+200A, the line and paragraph separators, NARROW
   * NO-BREAK SPACE, MEDIUM MATHEMATICAL SPACE and IDEOGRAPHIC SPACE.
   */
  predicate IsSpace(c: char) {
    ('\t' <= c <= '\r') || ('\U{1C}' <= c <= ' ') || c == '\U{85}' || c == '\U{A0}' || c == '\U{1680}'
    || ('\U{2000}' <= c <= '\U{200A}') || c == '\U{2028}' || c == '\U{2029}' || c == '\U{202F}'
    || c == '\U{205F}' || c == '\U{3000}'
  }

  /** Every character of `s` is whitespace (vacuously so for ""). */
  predicate AllSpace(s: string) {
    forall k | 0 <= k < |s| :: IsSpace(s[k])
  }

  /** `s.startswith(prefix)`: `s` is at least as long and agrees with `prefix` on its positions. */
  predicate StartsWith(s: string, prefix: string) {
    |prefix| <= |s| && forall k | 0 <= k < |prefix| :: s[k] == prefix[k]
  }

  /** `s` starts with `prefix` exactly when `prefix` is the slice of `s` of its length. */
  lemma StartsWithSlice(s: string, prefix: string)
    ensures StartsWith(s, prefix) <==> |prefix| <= |s| && s[..|prefix|] == prefix
  {
    if |prefix| <= |s| && s[..|prefix|] == prefix {
      forall k | 0 <= k < |prefix| ensures s[k] == prefix[k] {
        assert s[..|prefix|][k] == s[k];
      }
    }
  }

  /** The index of the first occurrence of `c` in `s`, if any. */
  function IndexOf(s: string, c: char): (r: Option<nat>)
    ensures r.Some? ==> r.value < |s|
  {
    if |s| == 0 then None
    else if s[0] == c then Some(0)
    else match IndexOf(s[1..], c)
      case None => None
      case Some(i) => Some(i + 1)
  }

  /** IndexOf finds nothing exactly when `c` does not occur, and otherwise the first position of `c`. */
  lemma {:induction false} IndexOfSpec(s: string, c: char)
    ensures IndexOf(s, c).None? <==> c !in s
    ensures IndexOf(s, c).Some? ==>
      var i := IndexOf(s, c).value; i < |s| && s[i] == c && c !in s[..i]
  {
    if |s| > 0 && s[0] != c {
      IndexOfSpec(s[1..], c);
      assert s == [s[0]] + s[1..];
      if IndexOf(s[1..], c).Some? {
        var i := IndexOf(s[1..], c).value;
        assert s[..i + 1] == [s[0]] + s[1..][..i];
      }
    }
  }

  /**
   * `s.split(sep, 1)`: the whole string when `sep` does not occur, otherwise
   * the text before the first `sep` and everything after it (later
   * occurrences of `sep` stay in the second part).
   */
  function SplitOnce(s: string, sep: char): seq<string> {
    match IndexOf(s, sep)
    case None => [s]
    case Some(i) => [s[..i], s[i + 1..]]
  }

  /** Without `sep` the split gives the string itself; with it, a `sep`-free head and a tail that rebuild the string. */
  lemma SplitOnceSpec(s: string, sep: char)
    ensures sep !in s ==> SplitOnce(s, sep) == [s]
    ensures sep in s ==>
      var parts := SplitOnce(s, sep);
      |parts| == 2 && sep !in parts[0] && parts[0] + [sep] + parts[1] == s
  {
    IndexOfSpec(s, sep);
    if sep in s {
      var i := IndexOf(s, sep).value;
      assert s[..i] + [sep] + s[i + 1..] == s;
    }
  }

  /** When `s` is `head + [sep] + tail` and `head` has no `sep`, splitting once recovers exactly `head` and `tail`. */
  lemma SplitOnceAt(s: string, sep: char, head: string, tail: string)
    requires s == head + [sep] + tail
    requires sep !in head
    ensures SplitOnce(s, sep) == [head, tail]
  {
    IndexOfSpec(s, sep);
    assert s[|head|] == sep;
    assert forall j | 0 <= j < |head| :: s[j] == head[j];
    var i := IndexOf(s, sep).value;
    assert s[..i] == head;
    assert s[i + 1..] == tail;
  }

  /** `s.lstrip()`: drop whitespace from the start, one character at a time. */
  function LStrip(s: string): string {
    if s != [] && IsSpace(s[0]) then LStrip(s[1..]) else s
  }

  /** `lstrip` keeps a suffix that does not start with whitespace, and removes only whitespace. */
  lemma {:induction false} LStripSpec(s: string)
    ensures var r := LStrip(s);
      |r| <= |s| && r == s[|s| - |r|..] && AllSpace(s[..|s| - |r|]) && (r != [] ==> !IsSpace(r[0]))
  {
    if s != [] && IsSpace(s[0]) {
      LStripSpec(s[1..]);
      var r := LStrip(s);
      assert s[1..][|s| - 1 - |r|..] == s[|s| - |r|..];
      assert s[..|s| - |r|] == [s[0]] + s[1..][..|s| - 1 - |r|];
    } else {
      assert s[..0] == [];
    }
  }

  /** `s.rstrip()`: drop whitespace from the end, one character at a time. */
  function RStrip(s: string): string {
    if s != [] && IsSpace(s[|s| - 1]) then RStrip(s[..|s| - 1]) else s
  }

  /** `rstrip` keeps a prefix that does not end with whitespace, and removes only whitespace. */
  lemma {:induction false} RStripSpec(s: string)
    ensures var r := RStrip(s);
      |r| <= |s| && r == s[..|r|] && AllSpace(s[|r|..]) && (r != [] ==> !IsSpace(r[|r| - 1]))
  {
    if s != [] && IsSpace(s[|s| - 1]) {
      RStripSpec(s[..|s| - 1]);
      var r := RStrip(s);
      assert s[..|s| - 1][..|r|] == s[..|r|];
      assert s[|r|..] == s[..|s| - 1][|r|..] + [s[|s| - 1]];
    } else {
      assert s[|s|..] == [];
    }
  }

  /** `s.strip()`: `lstrip` then `rstrip`. */
  function Strip(s: string): string {
    RStrip(LStrip(s))
  }

  /** The stripped string is no longer, neither starts nor ends with whitespace, and is empty exactly for all-whitespace input. */
  lemma StripSpec(s: string)
    ensures var r := Strip(s);
      |r| <= |s| && (r != [] ==> !IsSpace(r[0]) && !IsSpace(r[|r| - 1])) && (r == [] <==> AllSpace(s))
  {
    var l := LStrip(s);
    LStripSpec(s);
    RStripSpec(l);
    var r := RStrip(l);
    assert r != [] ==> r[0] == l[0];
    if l != [] {
      assert l[0] == s[|s| - |l|];
    }
    if r == [] {
      assert l[0..] == l;
      assert s[..|s| - |l|] == s;
    }
  }

  /** Every string is its stripped core, a slice with only whitespace before and after it. */
  lemma StripSlice(s: string) returns (i: nat, j: nat)
    ensures i <= j <= |s| && Strip(s) == s[i..j]
    ensures AllSpace(s[..i]) && AllSpace(s[j..])
  {
    var l := LStrip(s);
    LStripSpec(s);
    RStripSpec(l);
    var r := RStrip(l);
    i := |s| - |l|;
    j := i + |r|;
    assert s[i..j] == l[..|r|];
    assert s[j..] == l[|r|..];
  }

  /** Whitespace before a rest that starts with a non-space is dropped by `lstrip`. */
  lemma {:induction false} LStripPadded(lead: string, rest: string)
    requires AllSpace(lead)
    requires rest != [] && !IsSpace(rest[0])
    ensures LStrip(lead + rest) == rest
  {
    if lead == [] {
      assert lead + rest == rest;
    } else {
      assert (lead + rest)[1..] == lead[1..] + rest;
      LStripPadded(lead[1..], rest);
    }
  }

  /** Whitespace after a core that ends with a non-space is dropped by `rstrip`. */
  lemma {:induction false} RStripPadded(core: string, trail: string)
    requires AllSpace(trail)
    requires core != [] && !IsSpace(core[|core| - 1])
    ensures RStrip(core + trail) == core
  {
    if trail == [] {
      assert core + trail == core;
    } else {
      var s := core + trail;
      assert s[..|s| - 1] == core + trail[..|trail| - 1];
      RStripPadded(core, trail[..|trail| - 1]);
    }
  }

  /** Stripping undoes whitespace padding around a core that has none at its ends. */
  lemma StripPadded(lead: string, core: string, trail: string)
    requires AllSpace(lead) && AllSpace(trail)
    requires core != [] ==> !IsSpace(core[0]) && !IsSpace(core[|core| - 1])
    ensures Strip(lead + core + trail) == core
  {
    var s := lead + core + trail;
    if core == [] {
      assert AllSpace(s) by {
        forall k | 0 <= k < |s| ensures IsSpace(s[k]) {
          if k < |lead| { assert s[k] == lead[k]; } else { assert s[k] == trail[k - |lead|]; }
        }
      }
      StripSpec(s);
    } else {
      assert s == lead + (core + trail);
      LStripPadded(lead, core + trail);
      RStripPadded(core, trail);
    }
  }
}

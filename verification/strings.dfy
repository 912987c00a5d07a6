/** Python string primitives the configuration code relies on: `str.isspace`,
    `str.strip`/`str.rstrip`, `str.split(sep)` and `sep.join(xs)`, over
    `string` = `seq<char>` with `char` a Unicode scalar value. */
module Strings {

  /** Python's `str.isspace()` for one character: exactly the characters
      that `str.strip()` with no argument removes. */
  predicate IsSpace(c: char) {
    || ('\t' <= c <= '\r')              // tab, line feed, vertical tab, form feed, carriage return
    || ('\U{1c}' <= c <= '\U{1f}')      // file, group, record and unit separators
    || c == ' '
    || c == '\U{85}'                    // next line
    || c == '\U{a0}'                    // no-break space
    || c == '\U{1680}'
    || ('\U{2000}' <= c <= '\U{200a}')
    || c == '\U{2028}' || c == '\U{2029}'
    || c == '\U{202f}' || c == '\U{205f}' || c == '\U{3000}'
  }

  /** Every character of `t` is one the stripping predicate removes. */
  predicate All(t: string, strip: char -> bool) {
    forall k :: 0 <= k < |t| ==> strip(t[k])
  }

  /** Neither the first nor the last character of `t` would be stripped. */
  predicate NoEdge(t: string, strip: char -> bool) {
    t == [] || (!strip(t[0]) && !strip(t[|t| - 1]))
  }

  /** `t` is the slice of `s` starting at `i`, and everything of `s` before
      and after that slice would be stripped. */
  predicate StrippedAt(s: string, t: string, i: int, strip: char -> bool) {
    && 0 <= i <= |s| - |t|
    && t == s[i..i + |t|]
    && All(s[..i], strip)
    && All(s[i + |t|..], strip)
  }

  /** `t` is `s` with its maximal run of leading and trailing `strip`
      characters removed: the independent description of `Strip`. */
  ghost predicate IsStripOf(s: string, t: string, strip: char -> bool) {
    NoEdge(t, strip) && exists i :: StrippedAt(s, t, i, strip)
  }

  /** Python's `s.lstrip(chars)`, the character set given as a predicate. */
  function LStrip(s: string, strip: char -> bool): (r: string)
    ensures |r| <= |s| && r == s[|s| - |r|..]
    ensures All(s[..|s| - |r|], strip)
    ensures r == [] || !strip(r[0])
    decreases |s|
  {
    if |s| > 0 && strip(s[0]) then
      var r := LStrip(s[1..], strip);
      assert s[..|s| - |r|] == [s[0]] + s[1..][..|s| - 1 - |r|];
      r
    else s
  }

  /** Python's `s.rstrip(chars)`, the character set given as a predicate. */
  function RStrip(s: string, strip: char -> bool): (r: string)
    ensures |r| <= |s| && r == s[..|r|]
    ensures All(s[|r|..], strip)
    ensures r == [] || !strip(r[|r| - 1])
    decreases |s|
  {
    if |s| > 0 && strip(s[|s| - 1]) then
      var r := RStrip(s[..|s| - 1], strip);
      assert s[|r|..] == s[..|s| - 1][|r|..] + [s[|s| - 1]];
      r
    else s
  }

  /** Python's `s.strip(chars)`: both ends at once. */
  function Strip(s: string, strip: char -> bool): (r: string)
    ensures IsStripOf(s, r, strip)
  {
    var l := LStrip(s, strip);
    var r := RStrip(l, strip);
    var i := |s| - |l|;
    assert StrippedAt(s, r, i, strip) by {
      assert r == s[i..i + |r|];
      assert s[i + |r|..] == l[|r|..];
    }
    assert NoEdge(r, strip) by {
      if r != [] { assert r[0] == l[0]; }
    }
    r
  }

  /** A character inside a stripped slice is kept; one outside it is stripped. */
  lemma StrippedAtOutside(s: string, t: string, i: int, strip: char -> bool, k: int)
    requires StrippedAt(s, t, i, strip)
    requires 0 <= k < |s| && (k < i || i + |t| <= k)
    ensures strip(s[k])
  {
  }

  /** Two stripped slices of the same string, each with nothing left to
      strip at its ends, are the same slice. */
  lemma StrippedAtUnique(s: string, t: string, i: int, r: string, j: int, strip: char -> bool)
    requires StrippedAt(s, t, i, strip) && NoEdge(t, strip)
    requires StrippedAt(s, r, j, strip) && NoEdge(r, strip)
    ensures t == r
  {
    if t == [] && r != [] {
      // `t` being empty leaves every character of `s` stripped, `r[0]` included
      assert r[0] == s[j];
      StrippedAtOutside(s, t, i, strip, j);
    } else if t != [] && r == [] {
      assert t[0] == s[i];
      StrippedAtOutside(s, r, j, strip, i);
    } else if t != [] {
      // both keep a first character, which neither stripped prefix may contain
      assert t[0] == s[i] && r[0] == s[j];
      if i < j { StrippedAtOutside(s, r, j, strip, i); }
      if j < i { StrippedAtOutside(s, t, i, strip, j); }
      // and a last character, which neither stripped suffix may contain
      var e, f := i + |t| - 1, j + |r| - 1;
      assert t[|t| - 1] == s[e] && r[|r| - 1] == s[f];
      if e < f { StrippedAtOutside(s, t, i, strip, f); }
      if f < e { StrippedAtOutside(s, r, j, strip, e); }
    }
  }

  /** `IsStripOf` has exactly one solution, so `Strip` is the only function
      meeting its contract. */
  lemma StripIsUnique(s: string, t: string, strip: char -> bool)
    requires IsStripOf(s, t, strip)
    ensures t == Strip(s, strip)
  {
    var r := Strip(s, strip);
    var i :| StrippedAt(s, t, i, strip);
    var j :| StrippedAt(s, r, j, strip);
    StrippedAtUnique(s, t, i, r, j, strip);
  }

  /** A string with nothing to strip at either end is its own stripped form. */
  lemma StripClean(s: string, strip: char -> bool)
    requires NoEdge(s, strip)
    ensures Strip(s, strip) == s
  {
  }

  /** Stripping twice is stripping once. */
  lemma StripIdempotent(s: string, strip: char -> bool)
    ensures Strip(Strip(s, strip), strip) == Strip(s, strip)
  {
  }

  /** `rstrip` twice is `rstrip` once. */
  lemma RStripIdempotent(s: string, strip: char -> bool)
    ensures RStrip(RStrip(s, strip), strip) == RStrip(s, strip)
  {
  }

  /** A stripped slice of a separator-free string is separator-free. */
  lemma SliceKeepsSepFree(s: string, t: string, sep: char, strip: char -> bool)
    requires sep !in s
    requires exists i :: StrippedAt(s, t, i, strip)
    ensures sep !in t
  {
  }

  /** Python's `s.split(sep)` for a one-character separator: every occurrence
      of `sep` ends a piece, so empty pieces are kept and `""` splits to `[""]`. */
  function Split(s: string, sep: char): (r: seq<string>)
    ensures |r| == multiset(s)[sep] + 1
    ensures forall k :: 0 <= k < |r| ==> sep !in r[k]
    decreases |s|
  {
    if |s| == 0 then [""]
    else
      assert s == [s[0]] + s[1..];
      var rest := Split(s[1..], sep);
      if s[0] == sep then [""] + rest
      else [[s[0]] + rest[0]] + rest[1..]
  }

  /** Python's `sep.join(xs)` for a one-character separator. */
  function Join(xs: seq<string>, sep: char): string
  {
    if |xs| == 0 then ""
    else if |xs| == 1 then xs[0]
    else xs[0] + [sep] + Join(xs[1..], sep)
  }

  /** A join begins with its first piece, or with the separator when that
      piece is empty. */
  lemma JoinFirstChar(xs: seq<string>, sep: char)
    requires |xs| > 0 && |Join(xs, sep)| > 0
    ensures Join(xs, sep)[0] == if xs[0] == [] then sep else xs[0][0]
  {
  }

  /** Python's `"".join(xs)`: the pieces one after another. */
  function Concat(xs: seq<string>): string
  {
    if |xs| == 0 then "" else xs[0] + Concat(xs[1..])
  }

  /** The one-character strings of `s`, in order: what iterating a Python
      `str` visits. */
  function Chars(s: string): seq<string>
  {
    seq(|s|, k requires 0 <= k < |s| => [s[k]])
  }

  /** Putting the characters of a string back together gives the string. */
  lemma {:induction false} ConcatChars(s: string)
    ensures Concat(Chars(s)) == s
    decreases |s|
  {
    if |s| > 0 {
      assert Chars(s)[0] == [s[0]];
      assert Chars(s)[1..] == Chars(s[1..]);
      ConcatChars(s[1..]);
      assert s == [s[0]] + s[1..];
    }
  }

  /** Growing the first piece by one character grows the join by that character. */
  lemma JoinExtendFirst(c: char, xs: seq<string>, sep: char)
    requires |xs| > 0
    ensures Join([[c] + xs[0]] + xs[1..], sep) == [c] + Join(xs, sep)
  {
  }

  /** Joining the pieces of a split gives back the string that was split. */
  lemma {:induction false} JoinSplit(s: string, sep: char)
    ensures Join(Split(s, sep), sep) == s
    decreases |s|
  {
    if |s| > 0 {
      var rest := Split(s[1..], sep);
      JoinSplit(s[1..], sep);
      assert s == [s[0]] + s[1..];
      if s[0] == sep {
        assert ([""] + rest)[1..] == rest;
        assert Join([""] + rest, sep) == "" + [sep] + Join(rest, sep);
      } else {
        JoinExtendFirst(s[0], rest, sep);
      }
    }
  }

  /** One non-separator character in front joins the first piece. */
  lemma SplitCons(c: char, u: string, sep: char)
    requires c != sep
    ensures Split([c] + u, sep) == [[c] + Split(u, sep)[0]] + Split(u, sep)[1..]
  {
    assert ([c] + u)[0] == c && ([c] + u)[1..] == u;
  }

  /** Splitting a string whose first piece `a` is free of the separator
      puts `a` in front of the first piece of the rest. */
  lemma {:induction false} SplitPrepend(a: string, t: string, sep: char)
    requires sep !in a
    ensures Split(a + t, sep) == [a + Split(t, sep)[0]] + Split(t, sep)[1..]
    decreases |a|
  {
    var x := Split(t, sep);
    if |a| == 0 {
      assert a + t == t;
      assert a + x[0] == x[0];
      assert x == [x[0]] + x[1..];
    } else {
      var c, a', u := a[0], a[1..], a[1..] + t;
      assert c != sep by { assert c in a; }
      assert sep !in a' by { assert forall k :: 0 <= k < |a'| ==> a'[k] == a[k + 1]; }
      calc {
        Split(a + t, sep);
      == { assert a + t == [c] + u; }
        Split([c] + u, sep);
      == { SplitCons(c, u, sep); }
        [[c] + Split(u, sep)[0]] + Split(u, sep)[1..];
      == { SplitPrepend(a', t, sep); }
        [[c] + (a' + x[0])] + x[1..];
      == { assert [c] + (a' + x[0]) == a + x[0]; }
        [a + x[0]] + x[1..];
      }
    }
  }

  /** A leading separator closes an empty first piece. */
  lemma SplitSepCons(t: string, sep: char)
    ensures Split([sep] + t, sep) == [""] + Split(t, sep)
  {
    assert ([sep] + t)[0] == sep && ([sep] + t)[1..] == t;
  }

  /** Splitting the join of separator-free pieces gives the pieces back. */
  lemma {:induction false} SplitJoin(xs: seq<string>, sep: char)
    requires |xs| > 0
    requires forall k :: 0 <= k < |xs| ==> sep !in xs[k]
    ensures Split(Join(xs, sep), sep) == xs
    decreases |xs|
  {
    if |xs| == 1 {
      SplitPrepend(xs[0], "", sep);
      assert xs[0] + "" == xs[0];
    } else {
      var t := Join(xs[1..], sep);
      calc {
        Split(Join(xs, sep), sep);
      == { assert Join(xs, sep) == xs[0] + ([sep] + t); }
        Split(xs[0] + ([sep] + t), sep);
      == { SplitPrepend(xs[0], [sep] + t, sep); }
        [xs[0] + Split([sep] + t, sep)[0]] + Split([sep] + t, sep)[1..];
      == { SplitSepCons(t, sep); assert ([""] + Split(t, sep))[1..] == Split(t, sep); }
        [xs[0] + ""] + Split(t, sep);
      == { SplitJoin(xs[1..], sep); assert xs[0] + "" == xs[0]; }
        [xs[0]] + xs[1..];
      }
      assert xs == [xs[0]] + xs[1..];
    }
  }
}

/**
 * The Python `str` operations the configuration reader is built from:
 * `isspace` (which is also what `\s` matches in a `str` pattern),
 * `strip`, `split` with a one-character separator, and `join`.
 */
module Text {

  /** Python's `str.isspace()`: the characters `str.strip()` removes and `\s` matches. */
  predicate IsSpace(c: char) {
    || ('\t' <= c <= '\r')
    || ('\U{1c}' <= c <= '\U{1f}')
    || c == ' ' || c == '\U{85}' || c == '\U{a0}' || c == '\U{1680}'
    || ('\U{2000}' <= c <= '\U{200a}')
    || c == '\U{2028}' || c == '\U{2029}' || c == '\U{202f}' || c == '\U{205f}' || c == '\U{3000}'
  }

  /** The character set handed to `strip`: none (whitespace) or one character. */
  datatype CharSet = Whitespace | Only(c: char)

  predicate InSet(c: char, cs: CharSet) {
    match cs
    case Whitespace => IsSpace(c)
    case Only(d) => c == d
  }

  predicate AllInSet(s: string, cs: CharSet) {
    forall i :: 0 <= i < |s| ==> InSet(s[i], cs)
  }

  /** `s.lstrip(chars)`: what is left once the characters of the set in front are removed. */
  function TrimStart(s: string, cs: CharSet): (r: string)
    ensures |r| <= |s|
    decreases |s|
  {
    if s == [] || !InSet(s[0], cs) then s else TrimStart(s[1..], cs)
  }

  /** `s.rstrip(chars)`: what is left once the characters of the set behind are removed. */
  function TrimEnd(s: string, cs: CharSet): (r: string)
    ensures |r| <= |s|
    decreases |s|
  {
    if s == [] || !InSet(s[|s| - 1], cs) then s else TrimEnd(s[..|s| - 1], cs)
  }

  /** `s.strip(chars)`: `s.lstrip(chars).rstrip(chars)`. */
  function Strip(s: string, cs: CharSet): string {
    TrimEnd(TrimStart(s, cs), cs)
  }

  /**
   * lstrip removes a front made of characters of the set and stops at the
   * first character outside it.
   */
  lemma {:induction false} TrimStartSpec(s: string, cs: CharSet)
    ensures var r := TrimStart(s, cs);
      && r == s[|s| - |r|..]
      && AllInSet(s[..|s| - |r|], cs)
      && (r != [] ==> !InSet(r[0], cs))
    decreases |s|
  {
    if s != [] && InSet(s[0], cs) {
      TrimStartSpec(s[1..], cs);
      var r := TrimStart(s, cs);
      assert s[1..][..|s| - 1 - |r|] == s[1..|s| - |r|];
    }
  }

  /**
   * rstrip removes a back made of characters of the set and stops at the
   * last character outside it.
   */
  lemma {:induction false} TrimEndSpec(s: string, cs: CharSet)
    ensures var r := TrimEnd(s, cs);
      && r == s[..|r|]
      && AllInSet(s[|r|..], cs)
      && (r != [] ==> !InSet(r[|r| - 1], cs))
    decreases |s|
  {
    if s != [] && InSet(s[|s| - 1], cs) {
      var init := s[..|s| - 1];
      TrimEndSpec(init, cs);
      var r := TrimEnd(s, cs);
      assert r == TrimEnd(init, cs);
      assert r == s[..|r|];
      assert s[|r|..] == init[|r|..] + [s[|s| - 1]];
      forall i | |r| <= i < |s| ensures InSet(s[i], cs) {
        if i < |s| - 1 {
          assert s[i] == init[|r|..][i - |r|];
        }
      }
    }
  }

  /**
   * strip leaves a text that neither starts nor ends with a
   * character of the set, keeps only characters of the input, and leaves
   * nothing exactly when every character of the input is in the set.
   */
  lemma StripSpec(s: string, cs: CharSet)
    ensures var r := Strip(s, cs);
      && (r != [] ==> !InSet(r[0], cs) && !InSet(r[|r| - 1], cs))
      && multiset(r) <= multiset(s)
      && (r == [] <==> AllInSet(s, cs))
  {
    StripEnds(s, cs);
    StripCount(s, cs);
    StripEmpty(s, cs);
  }

  /** strip leaves no character of the set at either end. */
  lemma StripEnds(s: string, cs: CharSet)
    ensures var r := Strip(s, cs); r != [] ==> !InSet(r[0], cs) && !InSet(r[|r| - 1], cs)
  {
    var t := TrimStart(s, cs);
    var r := TrimEnd(t, cs);
    TrimStartSpec(s, cs);
    TrimEndSpec(t, cs);
    if r != [] {
      assert r[0] == t[0];
    }
  }

  /** strip only removes characters. */
  lemma StripCount(s: string, cs: CharSet)
    ensures multiset(Strip(s, cs)) <= multiset(s)
  {
    var t := TrimStart(s, cs);
    var r := TrimEnd(t, cs);
    TrimStartSpec(s, cs);
    TrimEndSpec(t, cs);
    SplitMultiset(s, |s| - |t|);
    SplitMultiset(t, |r|);
  }

  /** A text holds the characters of its two halves. */
  lemma SplitMultiset(s: string, i: nat)
    requires i <= |s|
    ensures multiset(s) == multiset(s[..i]) + multiset(s[i..])
  {
    assert s == s[..i] + s[i..];
  }

  /** strip leaves nothing exactly when every character is in the set. */
  lemma StripEmpty(s: string, cs: CharSet)
    ensures Strip(s, cs) == [] <==> AllInSet(s, cs)
  {
    var t := TrimStart(s, cs);
    var r := TrimEnd(t, cs);
    TrimStartSpec(s, cs);
    TrimEndSpec(t, cs);
    var k := |s| - |t|;
    if r == [] {
      assert t[|r|..] == t;
      assert t == [];
      forall i | 0 <= i < |s| ensures InSet(s[i], cs) {
        assert s[i] == s[..k][i];
      }
    }
    if AllInSet(s, cs) {
      assert t == [];
    }
  }

  /**
   * Stripping a text that is some characters of the set, then a core that
   * neither starts nor ends with one, then more characters of the set,
   * gives the core.
   */
  lemma {:induction false} StripSurrounded(front: string, core: string, back: string, cs: CharSet)
    requires AllInSet(front, cs) && AllInSet(back, cs)
    requires core != [] && !InSet(core[0], cs) && !InSet(core[|core| - 1], cs)
    ensures Strip(front + core + back, cs) == core
  {
    TrimStartFront(front, core + back, cs);
    assert front + core + back == front + (core + back);
    TrimEndBack(core, back, cs);
  }

  /** A text with nothing to strip at either end is its own strip. */
  lemma StripUnchanged(s: string, cs: CharSet)
    requires s != [] && !InSet(s[0], cs) && !InSet(s[|s| - 1], cs)
    ensures Strip(s, cs) == s
  {
    StripSurrounded([], s, [], cs);
    assert [] + s + [] == s;
  }

  lemma {:induction false} TrimStartFront(front: string, rest: string, cs: CharSet)
    requires AllInSet(front, cs)
    requires rest != [] && !InSet(rest[0], cs)
    ensures TrimStart(front + rest, cs) == rest
    decreases |front|
  {
    if front != [] {
      assert (front + rest)[1..] == front[1..] + rest;
      TrimStartFront(front[1..], rest, cs);
    }
  }

  lemma {:induction false} TrimEndBack(rest: string, back: string, cs: CharSet)
    requires AllInSet(back, cs)
    requires rest != [] && !InSet(rest[|rest| - 1], cs)
    ensures TrimEnd(rest + back, cs) == rest
    decreases |back|
  {
    if back != [] {
      var shorter := back[..|back| - 1];
      assert (rest + back)[..|rest + back| - 1] == rest + shorter;
      TrimEndBack(rest, shorter, cs);
    } else {
      assert rest + back == rest;
    }
  }

  /** `sep.join(parts)`. */
  function Join(parts: seq<string>, sep: string): string {
    if |parts| == 0 then []
    else if |parts| == 1 then parts[0]
    else parts[0] + sep + Join(parts[1..], sep)
  }

  /**
   * `s.split(d)` for a one-character separator: at least one part, no part
   * holds the separator, joining the parts with it gives `s` back, and
   * there are two parts or more exactly when `s` contains the separator.
   */
  function Split(s: string, d: char): (parts: seq<string>)
    ensures |parts| >= 1
    ensures forall i :: 0 <= i < |parts| ==> d !in parts[i]
    ensures |parts| >= 2 <==> d in s
    decreases |s|
  {
    if s == [] then [[]]
    else
      var rest := Split(s[1..], d);
      if s[0] == d then [[]] + rest
      else if |rest| == 1 then [[s[0]] + rest[0]]
      else [[s[0]] + rest[0]] + rest[1..]
  }

  /** Joining the parts of a split with its separator gives the text back. */
  lemma {:induction false} JoinSplit(s: string, d: char)
    ensures Join(Split(s, d), [d]) == s
    decreases |s|
  {
    if s != [] {
      JoinSplit(s[1..], d);
      var rest := Split(s[1..], d);
      if s[0] == d {
        JoinFront([], rest, [d]);
      } else if |rest| > 1 {
        JoinSplitGlue(s[0], rest, d);
      }
      assert s == [s[0]] + s[1..];
    }
  }

  /** A character glued to the first of two or more parts ends up in front of their join. */
  lemma JoinSplitGlue(c: char, rest: seq<string>, d: char)
    requires |rest| > 1
    ensures Join([[c] + rest[0]] + rest[1..], [d]) == [c] + Join(rest, [d])
  {
    var tail := Join(rest[1..], [d]);
    JoinFront([c] + rest[0], rest[1..], [d]);
    assert rest == [rest[0]] + rest[1..];
    JoinFront(rest[0], rest[1..], [d]);
    assert ([c] + rest[0]) + [d] + tail == [c] + (rest[0] + [d] + tail);
  }

  /** Joining a list with a first part in front of other parts puts that part and a separator in front. */
  lemma JoinFront(first: string, rest: seq<string>, sep: string)
    requires rest != []
    ensures Join([first] + rest, sep) == first + sep + Join(rest, sep)
  {
    assert ([first] + rest)[1..] == rest;
  }

  /** Splitting a text that starts with a separator-free prefix puts the prefix in front of the first part. */
  lemma {:induction false} SplitAfterPrefix(p: string, t: string, d: char)
    requires d !in p
    ensures Split(p + t, d) == [p + Split(t, d)[0]] + Split(t, d)[1..]
    decreases |p|
  {
    if p != [] {
      assert (p + t)[1..] == p[1..] + t;
      SplitAfterPrefix(p[1..], t, d);
      var rest := Split(p[1..] + t, d);
      assert rest[0] == p[1..] + Split(t, d)[0];
      assert rest[1..] == Split(t, d)[1..];
      assert Split(p + t, d) == [[p[0]] + rest[0]] + rest[1..];
      assert p == [p[0]] + p[1..];
      assert [p[0]] + rest[0] == p + Split(t, d)[0];
    } else {
      assert p + t == t;
      assert p + Split(t, d)[0] == Split(t, d)[0];
    }
  }

  /** Splitting undoes joining, when no part holds the separator. */
  lemma {:induction false} SplitJoin(parts: seq<string>, d: char)
    requires |parts| >= 1
    requires forall i :: 0 <= i < |parts| ==> d !in parts[i]
    ensures Split(Join(parts, [d]), d) == parts
    decreases |parts|
  {
    if |parts| == 1 {
      SplitAfterPrefix(parts[0], [], d);
      assert parts[0] + [] == parts[0];
    } else {
      var tail := Join(parts[1..], [d]);
      assert Join(parts, [d]) == parts[0] + ([d] + tail);
      SplitAfterPrefix(parts[0], [d] + tail, d);
      assert ([d] + tail)[1..] == tail;
      var after := Split(tail, d);
      assert Split([d] + tail, d) == [[]] + after;
      assert ([[]] + after)[0] == [] && ([[]] + after)[1..] == after;
      assert parts[0] + [] == parts[0];
      SplitJoin(parts[1..], d);
      assert parts == [parts[0]] + parts[1..];
    }
  }

  /** The parts one after the other: `"".join(parts)`. */
  function Concat(parts: seq<string>): string {
    if parts == [] then [] else parts[0] + Concat(parts[1..])
  }

  /** A character that no part holds is not in their concatenation. */
  lemma {:induction false} ConcatFree(parts: seq<string>, c: char)
    requires forall i :: 0 <= i < |parts| ==> c !in parts[i]
    ensures c !in Concat(parts)
    decreases |parts|
  {
    if parts != [] {
      ConcatFree(parts[1..], c);
    }
  }

  /** Each occurrence, in a join, of a character that is not in the separator comes from one of the parts. */
  lemma {:induction false} JoinCount(parts: seq<string>, sep: string, c: char)
    requires c !in sep
    ensures multiset(Join(parts, sep))[c] == multiset(Concat(parts))[c]
    decreases |parts|
  {
    if |parts| == 1 {
      assert Concat(parts) == parts[0] + [];
    } else if |parts| >= 2 {
      JoinCount(parts[1..], sep, c);
      assert multiset(sep)[c] == 0;
    }
  }

  /** Joining with a separator keeps every character of the parts. */
  lemma {:induction false} JoinCovers(parts: seq<string>, sep: string)
    ensures multiset(Concat(parts)) <= multiset(Join(parts, sep))
    decreases |parts|
  {
    if |parts| == 1 {
      assert Concat(parts) == parts[0] + [];
    } else if |parts| >= 2 {
      JoinCovers(parts[1..], sep);
    }
  }
}

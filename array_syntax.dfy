/**
 * The rewrite `MultiLineConfigParser.read` applies to a file's text before
 * handing it to the parser library: every `key = [ item, item, ... ]` that
 * starts a line becomes the key part, kept as written, followed by the
 * cleaned items joined with the two characters backslash and `n`.
 *
 * The pattern `^(?P<key>\s*[^=\s]+\s*=\s*)\[(?P<items>.*?)\]` (MULTILINE,
 * DOTALL) is deterministic once a start position is fixed: each greedy run
 * is followed by a character it cannot consume, so backtracking never
 * shortens it, and the lazy item group ends at the first `]`.  MatchAt is
 * therefore the engine's answer at one position, and Scan is `re.sub`
 * trying every position where `^` holds (the start of the text and every
 * position after a newline).
 */
module ArraySyntax {
  import opened Outcomes
  import opened Text

  /** The separator `'\\n'` of config.py line 53: a backslash followed by `n`, not a newline. */
  const Separator: string := ['\\', 'n']

  // ---------------------------------------------------------------------
  // _replace_array: cleaning the item list

  /** One token cleaned as on line 49: whitespace stripped, then every `"` at either end, then every `'`. */
  function Clean(token: string): (r: string)
    ensures r != [] ==> r[0] != '\'' && r[|r| - 1] != '\''
    ensures multiset(r) <= multiset(token)
  {
    var a := Strip(token, Whitespace);
    var b := Strip(a, Only('"'));
    StripSpec(token, Whitespace);
    StripSpec(a, Only('"'));
    StripSpec(b, Only('\''));
    Strip(b, Only('\''))
  }

  /** The filter of line 51: a token is kept when something is left once its whitespace is stripped. */
  predicate Kept(token: string) {
    Strip(token, Whitespace) != []
  }

  /** A token is dropped exactly when it is made of whitespace only. */
  lemma KeptIffNotBlank(token: string)
    ensures Kept(token) <==> !AllInSet(token, Whitespace)
  {
    StripSpec(token, Whitespace);
  }

  /**
   * A token of double quotes only, such as `""`, passes the filter (it is
   * not blank) and cleans to the empty item.
   */
  lemma QuotesOnlyToken(token: string)
    requires token != [] && AllInSet(token, Only('"'))
    ensures Kept(token) && Clean(token) == []
  {
    StripUnchanged(token, Whitespace);
    StripSpec(token, Only('"'));
  }

  /** The comprehension of lines 48-52 over the comma-separated tokens: each kept token, cleaned, in order. */
  function CleanTokens(tokens: seq<string>): seq<string>
    decreases |tokens|
  {
    if tokens == [] then []
    else (if Kept(tokens[0]) then [Clean(tokens[0])] else []) + CleanTokens(tokens[1..])
  }

  /** The comprehension never adds a token, and it is empty exactly when every token is dropped. */
  lemma {:induction false} CleanTokensEmpty(tokens: seq<string>)
    ensures |CleanTokens(tokens)| <= |tokens|
    ensures CleanTokens(tokens) == [] <==> NoneKept(tokens)
    decreases |tokens|
  {
    if tokens != [] {
      CleanTokensEmpty(tokens[1..]);
      assert tokens == [tokens[0]] + tokens[1..];
      NoneKeptCons(tokens[0], tokens[1..]);
      if Kept(tokens[0]) {
        assert CleanTokens(tokens)[0] == Clean(tokens[0]);
      } else {
        assert CleanTokens(tokens) == CleanTokens(tokens[1..]);
      }
    }
  }

  /** Every cleaned item is the cleaning of one of the tokens. */
  lemma {:induction false} CleanTokensFrom(tokens: seq<string>, i: nat)
    requires i < |CleanTokens(tokens)|
    ensures exists j :: 0 <= j < |tokens| && CleanTokens(tokens)[i] == Clean(tokens[j])
    decreases |tokens|
  {
    if Kept(tokens[0]) && i == 0 {
      assert CleanTokens(tokens)[0] == Clean(tokens[0]);
    } else {
      var k := if Kept(tokens[0]) then i - 1 else i;
      assert CleanTokens(tokens)[i] == CleanTokens(tokens[1..])[k];
      CleanTokensFrom(tokens[1..], k);
      var j :| 0 <= j < |tokens| - 1 && CleanTokens(tokens[1..])[k] == Clean(tokens[1..][j]);
      assert tokens[1..][j] == tokens[j + 1];
    }
  }

  /** The cleaned items together hold no character more often than the tokens together. */
  lemma {:induction false} CleanTokensCount(tokens: seq<string>)
    ensures multiset(Concat(CleanTokens(tokens))) <= multiset(Concat(tokens))
    decreases |tokens|
  {
    if tokens != [] {
      CleanTokensCount(tokens[1..]);
      var rest := CleanTokens(tokens[1..]);
      if Kept(tokens[0]) {
        var head := Clean(tokens[0]);
        assert CleanTokens(tokens) == [head] + rest;
        assert ([head] + rest)[1..] == rest;
      } else {
        assert CleanTokens(tokens) == rest;
      }
    }
  }

  /** Cleaning tokens keeps their order: cleaning two runs of tokens is cleaning each. */
  lemma {:induction false} CleanTokensAppend(a: seq<string>, b: seq<string>)
    ensures CleanTokens(a + b) == CleanTokens(a) + CleanTokens(b)
    decreases |a|
  {
    if a == [] {
      assert a + b == b;
    } else {
      var h := if Kept(a[0]) then [Clean(a[0])] else [];
      assert (a + b)[0] == a[0] && (a + b)[1..] == a[1..] + b;
      calc {
        CleanTokens(a + b);
        h + CleanTokens(a[1..] + b);
        { CleanTokensAppend(a[1..], b); }
        h + (CleanTokens(a[1..]) + CleanTokens(b));
        (h + CleanTokens(a[1..])) + CleanTokens(b);
        CleanTokens(a) + CleanTokens(b);
      }
    }
  }

  /** The text holds nothing but commas and whitespace. */
  predicate Blank(items: string) {
    forall i :: 0 <= i < |items| ==> items[i] == ',' || IsSpace(items[i])
  }

  /**
   * The item list of `_replace_array` (lines 48-52): the tokens between
   * commas that are not blank, each cleaned.  No item holds a comma, none
   * starts or ends with `'`, and the list is empty exactly when the text
   * between the brackets is made of commas and whitespace only.
   */
  function CleanItems(items: string): (r: seq<string>)
    ensures forall i :: 0 <= i < |r| ==> ',' !in r[i]
    ensures forall i :: 0 <= i < |r| ==> r[i] == [] || (r[i][0] != '\'' && r[i][|r[i]| - 1] != '\'')
    ensures r == [] <==> Blank(items)
  {
    CleanItemsShape(items);
    CleanTokens(Split(items, ','))
  }

  /** The facts CleanItems promises, about the comprehension over the comma-separated tokens. */
  lemma CleanItemsShape(items: string)
    ensures var r := CleanTokens(Split(items, ','));
      && (forall i :: 0 <= i < |r| ==> ',' !in r[i])
      && (forall i :: 0 <= i < |r| ==> r[i] == [] || (r[i][0] != '\'' && r[i][|r[i]| - 1] != '\''))
      && (r == [] <==> Blank(items))
  {
    var tokens := Split(items, ',');
    var r := CleanTokens(tokens);
    SplitBlank(items);
    CleanTokensEmpty(tokens);
    forall i | 0 <= i < |r| ensures ',' !in r[i] && (r[i] == [] || (r[i][0] != '\'' && r[i][|r[i]| - 1] != '\'')) {
      CleanItemFrom(tokens, i);
    }
  }

  /** One cleaned item holds no comma when no token does, and does not start or end with a quote. */
  lemma CleanItemFrom(tokens: seq<string>, i: nat)
    requires i < |CleanTokens(tokens)|
    requires forall j :: 0 <= j < |tokens| ==> ',' !in tokens[j]
    ensures var t := CleanTokens(tokens)[i];
      ',' !in t && (t == [] || (t[0] != '\'' && t[|t| - 1] != '\''))
  {
    CleanTokensFrom(tokens, i);
    var j :| 0 <= j < |tokens| && CleanTokens(tokens)[i] == Clean(tokens[j]);
    var t := Clean(tokens[j]);
    assert multiset(t)[','] <= multiset(tokens[j])[','];
  }

  /** No token of the list passes the filter. */
  predicate NoneKept(tokens: seq<string>) {
    forall i :: 0 <= i < |tokens| ==> !Kept(tokens[i])
  }

  /** Every comma-separated token of a text is blank exactly when the text holds only commas and whitespace. */
  lemma {:induction false} SplitBlank(items: string)
    ensures NoneKept(Split(items, ',')) <==> Blank(items)
    decreases |items|
  {
    if items != [] {
      SplitBlank(items[1..]);
      var rest := Split(items[1..], ',');
      var parts := Split(items, ',');
      if items[0] == ',' {
        assert parts == [[]] + rest;
        KeptIffNotBlank([]);
        NoneKeptCons([], rest);
      } else {
        var first := [items[0]] + rest[0];
        assert parts == [first] + rest[1..];
        assert rest == [rest[0]] + rest[1..];
        NoneKeptCons(first, rest[1..]);
        NoneKeptCons(rest[0], rest[1..]);
        KeptCons(items[0], rest[0]);
      }
      BlankCons(items);
    }
  }

  /** A list with a first token kept by nobody: the first is dropped and so is every other. */
  lemma NoneKeptCons(first: string, rest: seq<string>)
    ensures NoneKept([first] + rest) <==> !Kept(first) && NoneKept(rest)
  {
    var all := [first] + rest;
    assert all[0] == first;
    assert forall i :: 0 <= i < |rest| ==> all[i + 1] == rest[i];
  }

  /** A token with one more character in front is kept exactly when that character is not whitespace or the rest is kept. */
  lemma KeptCons(c: char, token: string)
    ensures Kept([c] + token) <==> !IsSpace(c) || Kept(token)
  {
    var longer := [c] + token;
    KeptIffNotBlank(longer);
    KeptIffNotBlank(token);
    assert longer[0] == c;
    assert forall k :: 0 <= k < |token| ==> longer[k + 1] == token[k];
    if IsSpace(c) && AllInSet(token, Whitespace) {
      forall k | 0 <= k < |longer| ensures InSet(longer[k], Whitespace) {
        if k > 0 { assert longer[k] == token[k - 1]; }
      }
    }
  }

  /** A text is blank exactly when its first character is a comma or whitespace and the rest is blank. */
  lemma BlankCons(items: string)
    requires items != []
    ensures Blank(items) <==> (items[0] == ',' || IsSpace(items[0])) && Blank(items[1..])
  {
    assert forall k :: 1 <= k < |items| ==> items[k] == items[1..][k - 1];
  }

  /**
   * `_replace_array` (lines 47-53): the key group as written, then the
   * cleaned items joined with the backslash-`n` separator.  The key comes
   * first unchanged, and a blank item list leaves the key alone.
   */
  function ReplaceArray(key: string, items: string): (r: string)
    ensures |key| <= |r| && r[..|key|] == key
    ensures Blank(items) ==> r == key
  {
    var r := key + Join(CleanItems(items), Separator);
    assert r[..|key|] == key;
    r
  }

  /**
   * The replacement adds no character other than those of the separator:
   * every other character occurs in it at most as often as in the key and
   * the item text together.  In particular no newline is introduced.
   */
  lemma ReplaceArrayCount(key: string, items: string, c: char)
    requires c !in Separator
    ensures multiset(ReplaceArray(key, items))[c] <= multiset(key)[c] + multiset(items)[c]
  {
    var tokens := Split(items, ',');
    var cleaned := CleanTokens(tokens);
    JoinCount(cleaned, Separator, c);
    CleanTokensCount(tokens);
    JoinSplit(items, ',');
    JoinCovers(tokens, [',']);
    assert multiset(Concat(cleaned)) <= multiset(Concat(tokens));
    assert multiset(Concat(tokens))[c] <= multiset(items)[c];
  }

  // ---------------------------------------------------------------------
  // The pattern of line 43 at one position

  /** The characters of `[^=\s]`. */
  predicate IsNameChar(c: char) {
    c != '=' && !IsSpace(c)
  }

  datatype CharClass = Spaces | NameChars

  predicate InClass(c: char, k: CharClass) {
    match k
    case Spaces => IsSpace(c)
    case NameChars => IsNameChar(c)
  }

  /** The end of the longest run of characters of class `k` that starts at `i`. */
  function Span(s: string, i: nat, k: CharClass): (j: nat)
    requires i <= |s|
    ensures i <= j <= |s|
    decreases |s| - i
  {
    if i < |s| && InClass(s[i], k) then Span(s, i + 1, k) else i
  }

  /** `s[i..j]` is a run of characters of class `k`. */
  predicate Run(s: string, i: nat, j: nat, k: CharClass) {
    i <= j <= |s| && forall n :: i <= n < j ==> InClass(s[n], k)
  }

  /** Span stops at the first character outside the class, and everything before it is in the class. */
  lemma {:induction false} SpanSpec(s: string, i: nat, k: CharClass)
    requires i <= |s|
    ensures Run(s, i, Span(s, i, k), k)
    ensures Span(s, i, k) < |s| ==> !InClass(s[Span(s, i, k)], k)
    decreases |s| - i
  {
    if i < |s| && InClass(s[i], k) {
      SpanSpec(s, i + 1, k);
    }
  }

  /** The first position at or after `i` that holds `c`, if there is one. */
  function Find(s: string, i: nat, c: char): (r: Option<nat>)
    requires i <= |s|
    ensures r.Some? ==> i <= r.value < |s| && s[r.value] == c && forall n :: i <= n < r.value ==> s[n] != c
    ensures r.None? ==> forall n :: i <= n < |s| ==> s[n] != c
    decreases |s| - i
  {
    if i == |s| then None
    else if s[i] == c then Some(i)
    else Find(s, i + 1, c)
  }

  /**
   * The positions of a match at the start of a text: the key group is
   * `s[..open]` (its name run is `s[nameStart..nameEnd]`, its `=` at
   * `equals`), the item group is `s[open + 1..close]`.
   */
  datatype ArrayMatch = ArrayMatch(nameStart: nat, nameEnd: nat, equals: nat, open: nat, close: nat)

  /**
   * `m` is the match the engine reports for `^(\s*[^=\s]+\s*=\s*)\[(.*?)\]`
   * at position 0 of `s`: whitespace, a non-empty run of name characters,
   * whitespace, `=`, whitespace, `[`, then everything up to the first `]`.
   */
  predicate Matches(s: string, m: ArrayMatch) {
    && m.nameStart < m.nameEnd <= m.equals < m.open < m.close < |s|
    && Run(s, 0, m.nameStart, Spaces)
    && Run(s, m.nameStart, m.nameEnd, NameChars)
    && Run(s, m.nameEnd, m.equals, Spaces)
    && s[m.equals] == '='
    && Run(s, m.equals + 1, m.open, Spaces)
    && s[m.open] == '['
    && (forall n :: m.open < n < m.close ==> s[n] != ']')
    && s[m.close] == ']'
  }

  /** The match of the pattern at the start of `s`, if there is one. */
  function MatchAt(s: string): (r: Option<ArrayMatch>)
    ensures r.Some? ==> r.value.open < r.value.close < |s|
  {
    var nameStart := Span(s, 0, Spaces);
    var nameEnd := Span(s, nameStart, NameChars);
    var equals := Span(s, nameEnd, Spaces);
    if nameEnd == nameStart || equals == |s| || s[equals] != '=' then None
    else
      var open := Span(s, equals + 1, Spaces);
      if open == |s| || s[open] != '[' then None
      else
        match Find(s, open + 1, ']')
        case None => None
        case Some(close) => Some(ArrayMatch(nameStart, nameEnd, equals, open, close))
  }

  /** Whatever MatchAt reports is a match of the pattern. */
  lemma MatchAtSound(s: string)
    requires MatchAt(s).Some?
    ensures Matches(s, MatchAt(s).value)
  {
    var nameStart := Span(s, 0, Spaces);
    var nameEnd := Span(s, nameStart, NameChars);
    var equals := Span(s, nameEnd, Spaces);
    var open := Span(s, equals + 1, Spaces);
    SpanSpec(s, 0, Spaces);
    SpanSpec(s, nameStart, NameChars);
    SpanSpec(s, nameEnd, Spaces);
    SpanSpec(s, equals + 1, Spaces);
  }

  /** A run that ends where its class stops is the one Span finds. */
  lemma {:induction false} SpanEndsAt(s: string, i: nat, j: nat, k: CharClass)
    requires Run(s, i, j, k)
    requires j < |s| ==> !InClass(s[j], k)
    ensures Span(s, i, k) == j
    decreases j - i
  {
    if i < j {
      SpanEndsAt(s, i + 1, j, k);
    }
  }

  /** The first occurrence is the one Find finds. */
  lemma {:induction false} FindFirst(s: string, i: nat, j: nat, c: char)
    requires i <= j < |s| && s[j] == c
    requires forall n :: i <= n < j ==> s[n] != c
    ensures Find(s, i, c) == Some(j)
    decreases j - i
  {
    if i < j {
      FindFirst(s, i + 1, j, c);
    }
  }

  /**
   * MatchAt finds every match there is: whenever the pattern matches at the
   * start of `s`, MatchAt reports exactly those positions.  With the
   * postcondition of MatchAt this says the match is unique and MatchAt
   * returns None only when the pattern cannot match.
   */
  lemma MatchAtComplete(s: string, m: ArrayMatch)
    requires Matches(s, m)
    ensures MatchAt(s) == Some(m)
  {
    assert InClass(s[m.nameStart], NameChars);
    SpanEndsAt(s, 0, m.nameStart, Spaces);
    assert InClass(s[m.nameEnd], Spaces) || s[m.nameEnd] == '=';
    SpanEndsAt(s, m.nameStart, m.nameEnd, NameChars);
    SpanEndsAt(s, m.nameEnd, m.equals, Spaces);
    SpanEndsAt(s, m.equals + 1, m.open, Spaces);
    FindFirst(s, m.open + 1, m.close, ']');
  }

  // ---------------------------------------------------------------------
  // re.sub over the whole text

  /**
   * `array_pattern.sub(_replace_array, s)` resumed at a position where `^`
   * holds (`atLineStart`) or does not.  After a match the next position
   * follows a `]`, so `^` does not hold there.
   */
  function Scan(s: string, atLineStart: bool): string
    decreases |s|
  {
    if s == [] then []
    else if atLineStart && MatchAt(s).Some? then
      Replaced(s, MatchAt(s).value) + Scan(s[MatchAt(s).value.close + 1..], false)
    else
      [s[0]] + Scan(s[1..], s[0] == '\n')
  }

  /** The replacement for a match at the start of `s`: its key group and the cleaned items. */
  function Replaced(s: string, m: ArrayMatch): string
    requires m.open < m.close < |s|
  {
    ReplaceArray(s[..m.open], s[m.open + 1..m.close])
  }

  /** The processed content of line 55. */
  function Normalize(content: string): string {
    Scan(content, true)
  }

  /** Text without a `[` has no match and comes out as it went in. */
  lemma {:induction false} ScanWithoutBracket(s: string, atLineStart: bool)
    requires '[' !in s
    ensures Scan(s, atLineStart) == s
    decreases |s|
  {
    if s != [] {
      assert MatchAt(s).None?;
      ScanWithoutBracket(s[1..], s[0] == '\n');
      assert s == [s[0]] + s[1..];
    }
  }

  /** Normalising text that holds no `[` (already normalised text, for one) changes nothing. */
  lemma NormalizeWithoutBracket(content: string)
    requires '[' !in content
    ensures Normalize(content) == content
  {
    ScanWithoutBracket(content, true);
  }

  /**
   * The scan only adds separator characters: any other character, the
   * newline included, occurs in the output at most as often as in the
   * input.
   */
  lemma {:induction false} ScanCount(s: string, atLineStart: bool, c: char)
    requires c !in Separator
    ensures multiset(Scan(s, atLineStart))[c] <= multiset(s)[c]
    decreases |s|
  {
    if s != [] {
      if atLineStart && MatchAt(s).Some? {
        var m := MatchAt(s).value;
        ScanCount(s[m.close + 1..], false, c);
        ScanCountMatch(s, m, c);
      } else {
        ScanCount(s[1..], s[0] == '\n', c);
        ScanCountPlain(s, atLineStart, c);
      }
    }
  }

  /** The step of ScanCount at a match. */
  lemma ScanCountMatch(s: string, m: ArrayMatch, c: char)
    requires c !in Separator && MatchAt(s) == Some(m)
    requires multiset(Scan(s[m.close + 1..], false))[c] <= multiset(s[m.close + 1..])[c]
    ensures multiset(Scan(s, true))[c] <= multiset(s)[c]
  {
    ScanMatchStep(s, m);
    CountAppend(Replaced(s, m), Scan(s[m.close + 1..], false), c);
    ReplacedCount(s, m, c);
  }

  /** The replacement at a match and the text after the `]` hold `c` no more often than the whole text. */
  lemma ReplacedCount(s: string, m: ArrayMatch, c: char)
    requires c !in Separator && m.open < m.close < |s|
    ensures multiset(Replaced(s, m))[c] + multiset(s[m.close + 1..])[c] <= multiset(s)[c]
  {
    ReplaceArrayCount(s[..m.open], s[m.open + 1..m.close], c);
    SliceCount(s, m.open, m.close, c);
  }

  /** At a match, the scan puts out the replacement and carries on after the `]`. */
  lemma ScanMatchStep(s: string, m: ArrayMatch)
    requires MatchAt(s) == Some(m)
    ensures Scan(s, true) == Replaced(s, m) + Scan(s[m.close + 1..], false)
  {
  }

  /** A character occurs in a concatenation as often as in its two halves together. */
  lemma CountAppend(a: string, b: string, c: char)
    ensures multiset(a + b)[c] == multiset(a)[c] + multiset(b)[c]
  {
  }

  /** The step of ScanCount where the first character is copied. */
  lemma ScanCountPlain(s: string, atLineStart: bool, c: char)
    requires s != [] && !(atLineStart && MatchAt(s).Some?)
    requires multiset(Scan(s[1..], s[0] == '\n'))[c] <= multiset(s[1..])[c]
    ensures multiset(Scan(s, atLineStart))[c] <= multiset(s)[c]
  {
    var tail := Scan(s[1..], s[0] == '\n');
    assert Scan(s, atLineStart) == [s[0]] + tail;
    assert s == [s[0]] + s[1..];
    assert multiset([s[0]] + tail)[c] == multiset([s[0]])[c] + multiset(tail)[c];
  }

  /** Three slices of a text around two positions hold no character more often than the text. */
  lemma SliceCount(s: string, i: nat, j: nat, c: char)
    requires i < j < |s|
    ensures multiset(s[..i])[c] + multiset(s[i + 1..j])[c] + multiset(s[j + 1..])[c] <= multiset(s)[c]
  {
    assert s == s[..i] + [s[i]] + s[i + 1..j] + [s[j]] + s[j + 1..];
  }

  /** Normalising never adds a newline. */
  lemma NormalizeAddsNoNewline(content: string)
    ensures multiset(Normalize(content))['\n'] <= multiset(content)['\n']
  {
    ScanCount(content, true, '\n');
  }

  /** A match at a line start is replaced by its key group and the cleaned items, and the scan resumes after the `]`. */
  lemma ScanAtMatch(s: string, m: ArrayMatch)
    requires Matches(s, m)
    ensures Scan(s, true)
         == s[..m.open] + Join(CleanItems(s[m.open + 1..m.close]), Separator) + Scan(s[m.close + 1..], false)
  {
    MatchAtComplete(s, m);
    ScanMatchStep(s, m);
  }

  // ---------------------------------------------------------------------
  // Arrays as written in a file

  /** An item that is written without needing quotes and survives cleaning unchanged. */
  predicate Plain(item: string) {
    && item != []
    && ',' !in item && ']' !in item
    && !IsSpace(item[0]) && !IsSpace(item[|item| - 1])
    && item[0] !in "\"'" && item[|item| - 1] !in "\"'"
  }

  /** How an item is written between the brackets: as is, in double quotes or in single quotes. */
  datatype Quoting = Bare | DoubleQuoted | SingleQuoted

  /** The item with its quotes, if any. */
  function Quote(item: string, q: Quoting): string {
    match q
    case Bare => item
    case DoubleQuoted => "\"" + item + "\""
    case SingleQuoted => "'" + item + "'"
  }

  /** An item as it is written between the brackets: one space each side of the quoted item. */
  function Written(item: string, q: Quoting): string {
    " " + Quote(item, q) + " "
  }

  /** Each item as it is written, in order. */
  function WrittenTokens(items: seq<string>, q: Quoting): seq<string> {
    seq(|items|, i requires 0 <= i < |items| => Written(items[i], q))
  }

  /** The text between the brackets of a written array. */
  function ArrayText(items: seq<string>, q: Quoting): string {
    Join(WrittenTokens(items, q), [','])
  }

  /** A written item is kept and cleans back to the item, whichever quotes it is written in. */
  lemma CleanWritten(item: string, q: Quoting)
    requires Plain(item)
    ensures Kept(Written(item, q)) && Clean(Written(item, q)) == item
  {
    var inner := Quote(item, q);
    assert !IsSpace(inner[0]) && !IsSpace(inner[|inner| - 1]);
    StripSurrounded(" ", inner, " ", Whitespace);
    assert [] + item + [] == item;
    match q {
      case Bare =>
        StripSurrounded([], item, [], Only('"'));
        StripSurrounded([], item, [], Only('\''));
      case DoubleQuoted =>
        StripSurrounded("\"", item, "\"", Only('"'));
        StripSurrounded([], item, [], Only('\''));
      case SingleQuoted =>
        assert [] + inner + [] == inner;
        StripSurrounded([], inner, [], Only('"'));
        StripSurrounded("'", item, "'", Only('\''));
    }
  }

  /** Cleaning the written tokens gives the items back, in order. */
  lemma {:induction false} CleanWrittenTokens(items: seq<string>, q: Quoting)
    requires forall i :: 0 <= i < |items| ==> Plain(items[i])
    ensures CleanTokens(WrittenTokens(items, q)) == items
    decreases |items|
  {
    if items != [] {
      var w := Written(items[0], q);
      calc {
        CleanTokens(WrittenTokens(items, q));
        { WrittenTokensCons(items, q); }
        CleanTokens([w] + WrittenTokens(items[1..], q));
        { CleanTokensCons(w, WrittenTokens(items[1..], q)); CleanWritten(items[0], q); }
        [items[0]] + CleanTokens(WrittenTokens(items[1..], q));
        { CleanWrittenTokens(items[1..], q); }
        [items[0]] + items[1..];
        items;
      }
    }
  }

  /** A token in front contributes its cleaning, when kept, before the rest's items. */
  lemma CleanTokensCons(token: string, rest: seq<string>)
    ensures CleanTokens([token] + rest) == (if Kept(token) then [Clean(token)] else []) + CleanTokens(rest)
  {
    assert ([token] + rest)[1..] == rest;
  }

  /** The written tokens of a non-empty list are its first item's, then the rest's. */
  lemma WrittenTokensCons(items: seq<string>, q: Quoting)
    requires items != []
    ensures WrittenTokens(items, q) == [Written(items[0], q)] + WrittenTokens(items[1..], q)
  {
    var t := WrittenTokens(items, q);
    var rest := WrittenTokens(items[1..], q);
    forall i | 0 <= i < |rest|
      ensures t[i + 1] == rest[i]
    {
      assert items[1..][i] == items[i + 1];
    }
    assert t[1..] == rest;
    assert t == [t[0]] + t[1..];
  }

  /**
   * Round trip of the array syntax: the items of `[ a , b , ... ]`, bare or
   * in double or single quotes, are `a, b, ...` again, in order; `[]` gives
   * no items.
   */
  lemma ArrayTextRoundTrip(items: seq<string>, q: Quoting)
    requires forall i :: 0 <= i < |items| ==> Plain(items[i])
    ensures CleanItems(ArrayText(items, q)) == items
  {
    var tokens := WrittenTokens(items, q);
    if items == [] {
      assert Blank(ArrayText(items, q));
    } else {
      forall i | 0 <= i < |tokens| ensures ',' !in tokens[i] {
        assert tokens[i] == Written(items[i], q);
      }
      SplitJoin(tokens, ',');
      CleanWrittenTokens(items, q);
    }
  }

  /** `[]`, or brackets holding only commas and whitespace, leave just the key group. */
  lemma BlankArray(key: string, items: string)
    requires Blank(items)
    ensures ReplaceArray(key, items) == key
  {
  }

  /** No written item brings a `]` into the array text. */
  lemma ArrayTextNoClose(items: seq<string>, q: Quoting)
    requires forall i :: 0 <= i < |items| ==> Plain(items[i])
    ensures ']' !in ArrayText(items, q)
  {
    var tokens := WrittenTokens(items, q);
    forall i | 0 <= i < |tokens| ensures ']' !in tokens[i] {
      WrittenNoClose(items[i], q);
    }
    ConcatFree(tokens, ']');
    JoinCount(tokens, [','], ']');
  }

  /** A written item holds a `]` only if the item does. */
  lemma WrittenNoClose(item: string, q: Quoting)
    requires ']' !in item
    ensures ']' !in Written(item, q)
  {
    var inner := Quote(item, q);
    assert Written(item, q) == " " + inner + " ";
    assert multiset(Written(item, q))[']'] == multiset(inner)[']'];
  }

  /** The positions of the match in `name = [text]rest`. */
  function LineMatch(name: string, text: string): ArrayMatch {
    var n := |name|;
    ArrayMatch(0, n, n + 1, n + 3, n + 4 + |text|)
  }

  /** `name = [text]rest` matches at its start when the name is a run of name characters and the text holds no `]`. */
  lemma ArrayLineMatches(name: string, text: string, rest: string)
    requires name != [] && forall i :: 0 <= i < |name| ==> IsNameChar(name[i])
    requires ']' !in text
    ensures var s := name + " = [" + text + "]" + rest; var m := LineMatch(name, text);
      && Matches(s, m)
      && s[..m.open] == name + " = "
      && s[m.open + 1..m.close] == text
      && s[m.close + 1..] == rest
  {
    var s := name + " = [" + text + "]" + rest;
    var n := |name|;
    assert s == (name + " = ") + "[" + text + "]" + rest;
    assert s[..n] == name;
    assert forall i :: n + 4 <= i < n + 4 + |text| ==> s[i] == text[i - n - 4];
  }

  /**
   * A line `name = [ a , b , ... ]` is rewritten to `name = ` followed by the
   * items joined with backslash-`n`, and the scan carries on after the `]`.
   */
  lemma NormalizeArrayLine(name: string, items: seq<string>, q: Quoting, rest: string)
    requires name != [] && forall i :: 0 <= i < |name| ==> IsNameChar(name[i])
    requires forall i :: 0 <= i < |items| ==> Plain(items[i])
    ensures Normalize(name + " = [" + ArrayText(items, q) + "]" + rest)
         == name + " = " + Join(items, Separator) + Scan(rest, false)
  {
    var text := ArrayText(items, q);
    var s := name + " = [" + text + "]" + rest;
    var m := LineMatch(name, text);
    ArrayTextNoClose(items, q);
    ArrayLineMatches(name, text, rest);
    ScanAtMatch(s, m);
    ArrayTextRoundTrip(items, q);
    assert CleanItems(s[m.open + 1..m.close]) == items;
    assert Normalize(s) == s[..m.open] + Join(items, Separator) + Scan(rest, false);
  }

  /** A line `name = [text]rest` with no `[` after the `]` is the key, the cleaned items joined, and the rest as written. */
  lemma NormalizeLastArrayLine(name: string, text: string, rest: string)
    requires name != [] && forall i :: 0 <= i < |name| ==> IsNameChar(name[i])
    requires ']' !in text && '[' !in rest
    ensures Normalize(name + " = [" + text + "]" + rest) == name + " = " + Join(CleanItems(text), Separator) + rest
  {
    var s := name + " = [" + text + "]" + rest;
    var m := LineMatch(name, text);
    ArrayLineMatches(name, text, rest);
    ScanAtMatch(s, m);
    ScanWithoutBracket(rest, false);
    assert Normalize(s) == s[..m.open] + Join(CleanItems(s[m.open + 1..m.close]), Separator) + Scan(s[m.close + 1..], false);
  }

  /** Item text without a comma is one token: kept and cleaned, or dropped. */
  lemma OneToken(text: string)
    requires ',' !in text
    ensures CleanItems(text) == if Kept(text) then [Clean(text)] else []
  {
    var parts := Split(text, ',');
    JoinSplit(text, ',');
    assert |parts| == 1;
    assert parts == [text];
    assert [text][1..] == [];
    assert CleanTokens([text]) == (if Kept(text) then [Clean(text)] else []) + CleanTokens([]);
  }

  /** The item text ` [x` is the one item `[x`. */
  lemma BracketedItem(x: string)
    requires Plain(x)
    ensures CleanItems(" [" + x) == ["[" + x]
  {
    var core := "[" + x;
    assert core[|core| - 1] == x[|x| - 1];
    StripSurrounded(" ", core, [], Whitespace);
    assert " " + core + [] == " [" + x;
    StripSurrounded([], core, [], Only('"'));
    StripSurrounded([], core, [], Only('\''));
    assert [] + core + [] == core;
    assert ',' !in " [" + x;
    OneToken(" [" + x);
  }

  /** The item text `x ` is the one item `x`. */
  lemma TrailingSpaceItem(x: string)
    requires Plain(x)
    ensures CleanItems(x + " ") == [x]
  {
    StripSurrounded([], x, " ", Whitespace);
    assert [] + x + " " == x + " ";
    StripSurrounded([], x, [], Only('"'));
    StripSurrounded([], x, [], Only('\''));
    assert [] + x + [] == x;
    assert ',' !in x + " ";
    OneToken(x + " ");
  }

  /** `name = [ [x] ]` is rewritten to `name = [x ]`: the item keeps the inner `[`, and the outer `]` follows as written. */
  lemma NestedBracketLine(name: string, x: string)
    requires name != [] && forall i :: 0 <= i < |name| ==> IsNameChar(name[i])
    requires Plain(x)
    ensures Normalize(name + " = [ [" + x + "] ]") == name + " = [" + x + " ]"
  {
    var text := " [" + x;
    assert name + " = [ [" + x + "] ]" == name + " = [" + text + "]" + " ]";
    assert ']' !in text;
    NormalizeLastArrayLine(name, text, " ]");
    BracketedItem(x);
    assert Join(["[" + x], Separator) == "[" + x;
    BracketItemThenClose(name, x);
  }

  /** The key group followed by the item `[x` and ` ]` is the line `name = [x ]`. */
  lemma BracketItemThenClose(name: string, x: string)
    ensures name + " = " + ("[" + x) + " ]" == name + " = [" + x + " ]"
  {
    assert " = " + ("[" + x) == " = [" + x;
  }

  /** `name = [x ]` is rewritten to `name = x`. */
  lemma SimpleArrayLine(name: string, x: string)
    requires name != [] && forall i :: 0 <= i < |name| ==> IsNameChar(name[i])
    requires Plain(x)
    ensures Normalize(name + " = [" + x + " ]") == name + " = " + x
  {
    var text := x + " ";
    assert name + " = [" + x + " ]" == name + " = [" + text + "]" + [];
    assert ']' !in text;
    NormalizeLastArrayLine(name, text, []);
    TrailingSpaceItem(x);
    assert Join([x], Separator) == x;
    assert name + " = " + x + [] == name + " = " + x;
  }

  /** Item text spanning two lines, `x⏎ y`, is one item, kept as written with its newline. */
  lemma MultiLineItem(x: string, y: string)
    requires Plain(x) && Plain(y)
    ensures CleanItems(x + "\n " + y) == [x + "\n " + y]
  {
    var t := x + "\n " + y;
    assert t[0] == x[0] && t[|t| - 1] == y[|y| - 1];
    StripUnchanged(t, Whitespace);
    StripUnchanged(t, Only('"'));
    StripUnchanged(t, Only('\''));
    assert ',' !in t;
    OneToken(t);
  }

  /**
   * A bracket array whose item spans two lines keeps the real newline:
   * `name = [x⏎ y]` becomes `name = x⏎ y`, since `strip` only trims the
   * ends of an item.
   */
  lemma MultiLineItemLine(name: string, x: string, y: string)
    requires name != [] && forall i :: 0 <= i < |name| ==> IsNameChar(name[i])
    requires Plain(x) && Plain(y)
    ensures Normalize(name + " = [" + x + "\n " + y + "]") == name + " = " + x + "\n " + y
  {
    var text := x + "\n " + y;
    assert name + " = [" + x + "\n " + y + "]" == name + " = [" + text + "]" + [];
    assert ']' !in text;
    NormalizeLastArrayLine(name, text, []);
    MultiLineItem(x, y);
    assert Join([text], Separator) == text;
    ItemLineRegroup(name, x, y);
  }

  /** The key group followed by the item `x⏎ y` is the line `name = x⏎ y`. */
  lemma ItemLineRegroup(name: string, x: string, y: string)
    ensures name + " = " + (x + "\n " + y) + [] == name + " = " + x + "\n " + y
  {
  }

  /**
   * The rewrite is not idempotent: `name = [ [x] ]` becomes `name = [x ]`,
   * which is itself a bracket array and is rewritten again to `name = x`.
   */
  lemma NormalizeNotIdempotent(name: string, x: string)
    requires name != [] && forall i :: 0 <= i < |name| ==> IsNameChar(name[i])
    requires Plain(x)
    ensures var once := Normalize(name + " = [ [" + x + "] ]");
      once == name + " = [" + x + " ]" && Normalize(once) == name + " = " + x && Normalize(once) != once
  {
    NestedBracketLine(name, x);
    SimpleArrayLine(name, x);
    assert |name + " = " + x| < |name + " = [" + x + " ]"|;
  }
}

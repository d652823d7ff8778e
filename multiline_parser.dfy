/**
 * `MultiLineConfigParser` (config.py lines 20-58): a configuration parser
 * whose `get` turns a multi-line value into its list of lines, and whose
 * `read` rewrites bracket arrays in each file's text before the parser
 * library reads it.
 *
 * The parser library is outside the model.  A section is the map from
 * option name to stored text that the library's `get` looks values up in,
 * and `read` is described by the calls it makes into the library, in order:
 * a `read_string` of a processed text, or the one fallback `read` of the
 * whole list.  Whether a file opens, and what it holds, is the map `files`
 * from the names that open to their contents.
 */
module MultiLineParser {
  import opened Outcomes
  import opened Text
  import opened ArraySyntax

  /** One section of the parser: option name to the text stored for it. */
  type Section = map<string, string>

  /** What `get` returns: the stored text, or the list of its lines. */
  datatype ConfigValue = Scalar(text: string) | Lines(parts: seq<string>)

  const Newline: char := '\n'

  /**
   * `get` (lines 21-25).  A missing option makes the library's `get` fail,
   * shown as None.  A stored text without a newline comes back unchanged;
   * one with a newline comes back as two or more newline-free lines that,
   * joined with newlines, give the stored text again.
   */
  function Get(section: Section, option: string): (r: Option<ConfigValue>)
    ensures r.None? <==> option !in section
    ensures option in section && Newline !in section[option] ==> r == Some(Scalar(section[option]))
    ensures option in section && Newline in section[option] ==>
      && r.Some? && r.value.Lines?
      && |r.value.parts| >= 2
      && (forall i :: 0 <= i < |r.value.parts| ==> Newline !in r.value.parts[i])
      && Join(r.value.parts, [Newline]) == section[option]
  {
    if option !in section then None
    else
      var value := section[option];
      if Newline in value then
        JoinSplit(value, Newline);
        Some(Lines(Split(value, Newline)))
      else Some(Scalar(value))
  }

  /** Lines stored joined with newlines are the lines `get` gives back. */
  lemma GetLines(section: Section, option: string, lines: seq<string>)
    requires |lines| >= 2 && forall i :: 0 <= i < |lines| ==> Newline !in lines[i]
    requires option in section && section[option] == Join(lines, [Newline])
    ensures Get(section, option) == Some(Lines(lines))
  {
    SplitJoin(lines, Newline);
    assert lines[0] + [Newline] + Join(lines[1..], [Newline]) == section[option];
    assert Newline in section[option] by {
      assert section[option][|lines[0]|] == Newline;
    }
  }

  /**
   * A bracket array in a file stays a single value through `get`: its
   * normalised form `name = a\nb` (backslash and `n`) has no newline, so
   * whatever text the library stores for it comes back as that same text.
   */
  lemma BracketArrayReadsAsScalar(items: seq<string>, section: Section, option: string)
    requires forall i :: 0 <= i < |items| ==> Newline !in items[i]
    requires option in section && section[option] == Join(items, Separator)
    ensures Get(section, option) == Some(Scalar(Join(items, Separator)))
  {
    JoinCount(items, Separator, Newline);
    ConcatFree(items, Newline);
  }

  // ---------------------------------------------------------------------
  // read

  /** The `filenames` argument of `read`: one path, or a list of them. */
  datatype Filenames = OnePath(path: string) | PathList(paths: seq<string>)

  /** Lines 28-29: a single path is read as a one-element list. */
  function Paths(filenames: Filenames): (r: seq<string>)
    ensures filenames.OnePath? ==> r == [filenames.path]
    ensures filenames.PathList? ==> r == filenames.paths
  {
    match filenames
    case OnePath(p) => [p]
    case PathList(ps) => ps
  }

  /** A call `read` makes into the parser library. */
  datatype ReadAction =
    | ReadString(source: string, text: string)  // line 58: `read_string(processed, source=filename)`
    | FallbackRead(filenames: seq<string>)      // line 37: `super().read(filenames)`

  /** The position of the first name that does not open, or the number of names when they all open. */
  function FirstUnopenable(names: seq<string>, files: map<string, string>): (k: nat)
    ensures k <= |names|
    ensures forall i :: 0 <= i < k ==> names[i] in files
    ensures k < |names| ==> names[k] !in files
    decreases |names|
  {
    if names == [] || names[0] !in files then 0
    else 1 + FirstUnopenable(names[1..], files)
  }

  /** The `read_string` calls for the first `k` names, all of which open. */
  function ReadStrings(names: seq<string>, files: map<string, string>, k: nat): seq<ReadAction>
    requires k <= |names| && forall i :: 0 <= i < k ==> names[i] in files
  {
    seq(k, i requires 0 <= i < k => ReadString(names[i], Normalize(files[names[i]])))
  }

  /**
   * The calls of one `read`: each name that opens, up to the first that
   * does not, is normalised and read as a string; at the first that does
   * not open, the library reads the whole list, and nothing follows.
   */
  function ReadEffects(names: seq<string>, files: map<string, string>): seq<ReadAction> {
    var k := FirstUnopenable(names, files);
    ReadStrings(names, files, k) + if k < |names| then [FallbackRead(names)] else []
  }

  /**
   * The shape of the trace: the files are read in order, each once, with
   * its normalised content; there is at most one fallback, it is the last
   * call, it hands over the whole list, and it happens exactly when some
   * name does not open.  Every name before the first that does not open is
   * read, and the fallback comes right at that name.
   */
  lemma ReadTrace(names: seq<string>, files: map<string, string>)
    ensures var t := ReadEffects(names, files);
      && |t| <= |names|
      && (forall i :: 0 <= i < |t| && t[i].ReadString? ==>
            names[i] in files && t[i] == ReadString(names[i], Normalize(files[names[i]])))
      && (forall i :: 0 <= i < |t| && t[i].FallbackRead? ==> i == |t| - 1 && t[i].filenames == names)
      && ((exists i :: 0 <= i < |t| && t[i].FallbackRead?) <==> (exists j :: 0 <= j < |names| && names[j] !in files))
      && var k := FirstUnopenable(names, files);
      && |t| == k + (if k < |names| then 1 else 0)
      && (forall i :: 0 <= i < k ==> t[i] == ReadString(names[i], Normalize(files[names[i]])))
      && (k < |names| ==> t[k] == FallbackRead(names))
  {
    var t := ReadEffects(names, files);
    var k := FirstUnopenable(names, files);
    var front := ReadStrings(names, files, k);
    assert forall i :: 0 <= i < k ==> t[i] == front[i];
    if k < |names| {
      assert t[k] == FallbackRead(names);
    } else {
      assert t == front;
    }
  }

  /** When every file opens, each is read as a string in order and the fallback is never taken. */
  lemma ReadAllOpen(names: seq<string>, files: map<string, string>)
    requires forall i :: 0 <= i < |names| ==> names[i] in files
    ensures |ReadEffects(names, files)| == |names|
    ensures forall i :: 0 <= i < |names| ==>
      ReadEffects(names, files)[i] == ReadString(names[i], Normalize(files[names[i]]))
  {
    var k := FirstUnopenable(names, files);
    assert k == |names|;
  }

  /** A first file that does not open leaves the fallback read of the whole list as the only call. */
  lemma ReadFirstUnopenable(names: seq<string>, files: map<string, string>)
    requires names != [] && names[0] !in files
    ensures ReadEffects(names, files) == [FallbackRead(names)]
  {
  }

  /**
   * The parser (line 20), seen through the calls it makes into the library:
   * `calls` is every call so far.
   */
  class MultiLineConfigParser {
    var calls: seq<ReadAction>

    constructor ()
      ensures calls == []
    {
      calls := [];
    }

    /**
     * `read` (lines 27-38, 58): wraps a single path, then reads file after
     * file until one cannot be opened, which hands the whole list to the
     * library's own `read` and returns.
     */
    method Read(filenames: Filenames, files: map<string, string>)
      modifies this
      ensures calls == old(calls) + ReadEffects(Paths(filenames), files)
    {
      var names := Paths(filenames);
      var i := 0;
      while i < |names|
        invariant i <= |names|
        invariant forall j :: 0 <= j < i ==> names[j] in files
        invariant calls == old(calls) + ReadStrings(names, files, i)
      {
        var filename := names[i];
        if filename !in files {
          assert FirstUnopenable(names, files) == i;
          calls := calls + [FallbackRead(names)];
          return;
        }
        var processed := Normalize(files[filename]);
        calls := calls + [ReadString(filename, processed)];
        assert ReadStrings(names, files, i + 1) == ReadStrings(names, files, i) + [ReadString(filename, processed)];
        i := i + 1;
      }
      assert FirstUnopenable(names, files) == |names|;
    }
  }
}

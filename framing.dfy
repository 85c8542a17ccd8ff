/** Cutting `\n`-terminated lines off a stream buffer. */
module Framing {
  import opened Wrappers

  /** `std::string::find('\n')`: the index of the first delimiter, or None
      (`npos`) when the text holds none. */
  function FindNewline(s: string): (r: Option<nat>)
    ensures r.Some? ==> r.value < |s| && s[r.value] == '\n' && '\n' !in s[..r.value]
    ensures r.None? <==> '\n' !in s
  {
    if |s| == 0 then None
    else if s[0] == '\n' then Some(0)
    else match FindNewline(s[1..])
      case None => None
      case Some(p) =>
        assert s[..p + 1] == [s[0]] + s[1..][..p];
        Some(p + 1)
  }

  /** The first delimiter of a text stays the first one whatever is appended. */
  lemma FindNewlineAppend(a: string, b: string)
    requires '\n' in a
    ensures FindNewline(a + b) == FindNewline(a)
  {
    var p := FindNewline(a).value;
    assert (a + b)[p] == '\n';
    assert (a + b)[..p] == a[..p];
  }

  /** Cutting at the first delimiter: the line in front of it holds no
      delimiter, and line, delimiter and remainder make up the old text. */
  lemma CutAtFirstNewline(s: string)
    requires FindNewline(s).Some?
    ensures var pos := FindNewline(s).value;
      s == s[..pos] + "\n" + s[pos + 1..] && '\n' !in s[..pos]
  {
    var pos := FindNewline(s).value;
    assert s == s[..pos] + [s[pos]] + s[pos + 1..];
  }

  /** Complete lines and the unterminated rest of a stream. */
  datatype Split = Split(lines: seq<string>, partial: string)

  /** The lines, each followed by its delimiter, in order. */
  function Join(lines: seq<string>): string
  {
    if lines == [] then []
    else Join(lines[..|lines| - 1]) + lines[|lines| - 1] + "\n"
  }

  /** A reference framer that reads the stream one character at a time: a
      delimiter completes the partial line, any other character extends it. */
  function Frame(s: string): (f: Split)
    decreases |s|
  {
    if s == [] then Split([], [])
    else
      var f := Frame(s[..|s| - 1]);
      if s[|s| - 1] == '\n' then Split(f.lines + [f.partial], [])
      else Split(f.lines, f.partial + [s[|s| - 1]])
  }

  /** The framer loses and invents nothing: the lines, each with its
      delimiter, followed by the partial line, make up the stream, and no
      line or partial line holds a delimiter. */
  lemma {:induction false} FrameJoin(s: string)
    ensures '\n' !in Frame(s).partial
    ensures forall i :: 0 <= i < |Frame(s).lines| ==> '\n' !in Frame(s).lines[i]
    ensures s == Join(Frame(s).lines) + Frame(s).partial
    decreases |s|
  {
    if s != [] {
      var p, c := s[..|s| - 1], s[|s| - 1];
      FrameJoin(p);
      var f := Frame(p);
      assert s == p + [c];
      if c == '\n' {
        assert (f.lines + [f.partial])[..|f.lines|] == f.lines;
        assert Join(f.lines + [f.partial]) == Join(f.lines) + f.partial + "\n";
      } else {
        assert Join(f.lines) + (f.partial + [c]) == Join(f.lines) + f.partial + [c];
      }
    }
  }
}

/** `walkToStream`: the depth-first walk that turns a directory tree into
    section headings and code listings, written chunk by chunk to a sink. */
module Walk {
  import opened Text
  import opened Escape

  /** A directory entry as `readdirSync` and `lstatSync` see it; `children`
      keeps the order in which the directory listing returned them. */
  datatype Node = Dir(name: string, children: seq<Node>) | File(name: string, content: string)

  /** The heading commands, one per nesting level. */
  const Section: seq<string> := ["\\section{", "\\subsection{", "\\subsubsection{"]

  /** The extension registry: the only files that are emitted, with the
      listing language each one gets. */
  const Extensions: map<string, string> := map[
    ".cc" := "C++",
    ".cpp" := "C++",
    ".hpp" := "C++",
    ".c" := "C",
    ".java" := "Java",
    ".py" := "Python",
    ".tex" := "Tex",
    ".go" := "Golang"
  ]

  /** Names starting with `.` are hidden and skipped with everything beneath them. */
  predicate IsHidden(name: string)
  {
    StartsWith(name, ".")
  }

  /** `path.extname` of an entry name: the text from the last `.` on, or ""
      when there is no `.` or the only one leads the name. */
  function ExtName(name: string): (r: string)
    ensures r == [] || (r[0] == '.' && '.' !in r[1..])
    ensures EndsWith(name, r)
    ensures r == [] && |name| > 0 && name[0] != '.' ==> '.' !in name
  {
    match LastIndexOf(name, '.')
    case Some(i) => if i == 0 then [] else name[i..]
    case None => []
  }

  /** `file.split('.')[0]`: the part of a file name that becomes its title. */
  function Stem(name: string): string
  {
    Before(name, '.')
  }

  /** The heading level used at nesting depth `depth`: `Math.min(depth, 2)`. */
  function Level(depth: nat): (d: nat)
    ensures d < |Section|
    ensures d <= depth && (depth < |Section| ==> d == depth)
    ensures depth >= |Section| - 1 ==> d == |Section| - 1
  {
    if depth < |Section| - 1 then depth else |Section| - 1
  }

  /** The chunk announcing a directory or file: a newline, the sectioning
      command, the escaped title in `\text{ … }`, and the closing brace. */
  function Heading(d: nat, title: string): string
    requires d < |Section|
  {
    "\n" + Section[d] + "\\text{ " + EscapeLatex(title) + " }" + "}\n"
  }

  function ListingBegin(language: string): string
  {
    "\\begin{lstlisting}[language=" + language + "]\n"
  }

  const ListingEnd: string := "\\end{lstlisting}\n"

  /** What the walk writes for the entries of one directory listed at
      `depth`: the chunks `walkToStream` appends, in order. */
  function WalkOutput(entries: seq<Node>, depth: nat): seq<string>
    decreases entries
  {
    if entries == [] then []
    else Entry(entries[0], Level(depth)) + WalkOutput(entries[1..], depth)
  }

  /** What the walk writes for one entry at heading level `d`. */
  function Entry(e: Node, d: nat): seq<string>
    requires d < |Section|
    decreases e
  {
    if IsHidden(e.name) then []
    else match e
      case Dir(name, children) => [Heading(d, name)] + WalkOutput(children, d + 1)
      case File(name, content) => FileEntry(name, content, d)
  }

  /** What the walk writes for a file that is not hidden. */
  function FileEntry(name: string, content: string, d: nat): seq<string>
    requires d < |Section|
  {
    var ext := ExtName(name);
    if ext !in Extensions then []
    else if ext != ".tex" then [Heading(d, Stem(name)), ListingBegin(Extensions[ext]), content, ListingEnd]
    else [Heading(d, Stem(name)), content]
  }

  /** A writable stream: the chunks written so far, and whether it was ended. */
  class Sink {
    var written: seq<string>
    var closed: bool

    constructor ()
      ensures written == [] && !closed
    {
      written := [];
      closed := false;
    }

    /** `output.write(chunk)`; a stream cannot be written after it was ended. */
    method Write(chunk: string)
      requires !closed
      modifies this
      ensures written == old(written) + [chunk] && !closed
    {
      written := written + [chunk];
    }

    /** `output.end(chunk)`: a last write, then the stream is closed. */
    method End(chunk: string)
      requires !closed
      modifies this
      ensures written == old(written) + [chunk] && closed
    {
      written := written + [chunk];
      closed := true;
    }
  }

  /** Appends to `output` the headings and listings for the contents of the
      directory `dir`, in listing order, recursing into subdirectories. */
  method WalkToStream(dir: Node, depth: nat, output: Sink)
    requires dir.Dir? && !output.closed
    modifies output
    ensures output.written == old(output.written) + WalkOutput(dir.children, depth)
    ensures !output.closed
    decreases dir, 0
  {
    var i := 0;
    while i < |dir.children|
      invariant 0 <= i <= |dir.children|
      invariant output.written == old(output.written) + WalkOutput(dir.children[..i], depth)
      invariant !output.closed
    {
      var file := dir.children[i];
      WriteEntry(file, Level(depth), output);
      WalkSnoc(dir.children[..i], file, depth);
      assert dir.children[..i + 1] == dir.children[..i] + [file];
      i := i + 1;
    }
    assert dir.children[..i] == dir.children;
  }

  /** The work done for one listed entry: skip it if hidden, otherwise write
      a directory's heading and recurse, or a registered file's heading and
      content. */
  method WriteEntry(file: Node, d: nat, output: Sink)
    requires d < |Section| && !output.closed
    modifies output
    ensures output.written == old(output.written) + Entry(file, d)
    ensures !output.closed
    decreases file, 1
  {
    if !IsHidden(file.name) {
      match file
      case Dir(name, _) =>
        output.Write(Heading(d, name));
        WalkToStream(file, d + 1, output);
      case File(name, content) =>
        WriteFile(name, content, d, output);
    }
  }

  /** A shown file: its heading, then its content, inside a listing frame
      unless it is a `.tex` file. */
  method WriteFile(name: string, content: string, d: nat, output: Sink)
    requires d < |Section| && !output.closed && !IsHidden(name)
    modifies output
    ensures output.written == old(output.written) + FileEntry(name, content, d)
    ensures !output.closed
  {
    var ext := ExtName(name);
    if ext in Extensions {
      var heading := Heading(d, Stem(name));
      if ext != ".tex" {
        var language := Extensions[ext];
        assert FileEntry(name, content, d) == [heading, ListingBegin(language), content, ListingEnd];
        WriteListing(heading, language, content, output);
      } else {
        assert FileEntry(name, content, d) == [heading, content];
        output.Write(heading);
        output.Write(content);
        assert output.written == old(output.written) + [heading, content];
      }
    }
  }

  /** A non-`.tex` file: its heading, then its content framed as a listing
      in `language`. */
  method WriteListing(heading: string, language: string, content: string, output: Sink)
    requires !output.closed
    modifies output
    ensures output.written == old(output.written) + [heading, ListingBegin(language), content, ListingEnd]
    ensures !output.closed
  {
    output.Write(heading);
    output.Write(ListingBegin(language));
    output.Write(content);
    output.Write(ListingEnd);
  }

  lemma WalkSnoc(entries: seq<Node>, e: Node, depth: nat)
    ensures WalkOutput(entries + [e], depth) == WalkOutput(entries, depth) + Entry(e, Level(depth))
  {
    WalkAppend(entries, [e], depth);
    assert [e][1..] == [];
  }

  /** The walk of a listing is the walks of its parts, in order: entries are
      written in the order the directory listing gives them. */
  lemma {:induction false} WalkAppend(a: seq<Node>, b: seq<Node>, depth: nat)
    ensures WalkOutput(a + b, depth) == WalkOutput(a, depth) + WalkOutput(b, depth)
  {
    if a == [] {
      assert a + b == b;
    } else {
      var head := Entry(a[0], Level(depth));
      assert (a + b)[1..] == a[1..] + b;
      assert WalkOutput(a + b, depth) == head + WalkOutput(a[1..] + b, depth);
      WalkAppend(a[1..], b, depth);
    }
  }

  /** Below the third level every heading is `\subsubsection{`: walking at
      any depth of at least 2 is walking at depth 2. */
  lemma {:induction false} WalkDeep(entries: seq<Node>, depth: nat)
    requires depth >= |Section| - 1
    ensures WalkOutput(entries, depth) == WalkOutput(entries, |Section| - 1)
  {
    if entries != [] {
      WalkDeep(entries[1..], depth);
    }
  }

  /** An entry the walk writes something for: not hidden, and a directory or
      a file whose extension is registered. */
  predicate Shown(e: Node)
  {
    !IsHidden(e.name) && (e.Dir? || ExtName(e.name) in Extensions)
  }

  /** The tree without hidden entries and unregistered files, at every level. */
  function Prune(entries: seq<Node>): (r: seq<Node>)
    ensures |r| <= |entries|
    ensures forall i :: 0 <= i < |r| ==> Shown(r[i])
    decreases entries
  {
    if entries == [] then []
    else if Shown(entries[0]) then [PruneNode(entries[0])] + Prune(entries[1..])
    else Prune(entries[1..])
  }

  function PruneNode(e: Node): (r: Node)
    ensures r.name == e.name && r.Dir? == e.Dir?
    decreases e
  {
    match e
    case Dir(name, children) => Dir(name, Prune(children))
    case File(_, _) => e
  }

  /** Deleting every hidden entry and every unregistered file, however deep,
      leaves the written output unchanged. */
  lemma {:induction false} WalkPrune(entries: seq<Node>, depth: nat)
    ensures WalkOutput(Prune(entries), depth) == WalkOutput(entries, depth)
    decreases entries
  {
    if entries != [] {
      var e := entries[0];
      WalkPrune(entries[1..], depth);
      if Shown(e) {
        EntryPrune(e, Level(depth));
        assert ([PruneNode(e)] + Prune(entries[1..]))[1..] == Prune(entries[1..]);
      }
    }
  }

  lemma {:induction false} EntryPrune(e: Node, d: nat)
    requires d < |Section|
    ensures Entry(PruneNode(e), d) == Entry(e, d)
    decreases e
  {
    if e.Dir? {
      WalkPrune(e.children, d + 1);
    }
  }

  /** An entry that is not shown contributes nothing, so deleting it from
      anywhere in a listing leaves the output unchanged. */
  lemma WalkSkipsHidden(a: seq<Node>, e: Node, b: seq<Node>, depth: nat)
    requires !Shown(e)
    ensures WalkOutput(a + [e] + b, depth) == WalkOutput(a + b, depth)
  {
    WalkAppend(a + [e], b, depth);
    WalkSnoc(a, e, depth);
    assert Entry(e, Level(depth)) == [];
    assert WalkOutput(a + [e], depth) == WalkOutput(a, depth);
    WalkAppend(a, b, depth);
  }

  /** The title and the language of a file come from different dots: the
      title stops at the first one, the language is chosen by the last. So
      `a.b.py` is listed as Python under the title `a`. */
  lemma FileNameParts(stem: string, middle: string, ext: string)
    requires stem != [] && stem[0] != '.' && '.' !in stem
    requires middle == [] || middle[0] == '.'
    requires ext != [] && ext[0] == '.' && '.' !in ext[1..]
    ensures Stem(stem + middle + ext) == stem
    ensures ExtName(stem + middle + ext) == ext
  {
    assert stem + middle + ext == stem + (middle + ext);
    StemOf(stem, middle + ext);
    assert (stem + middle)[0] == stem[0];
    assert stem + middle + ext == (stem + middle) + ext;
    LastDotOf(stem + middle, ext);
  }

  lemma StemOf(stem: string, rest: string)
    requires '.' !in stem && rest != [] && rest[0] == '.'
    ensures Stem(stem + rest) == stem
  {
    var name := stem + rest;
    assert name[..|stem|] == stem;
    assert name[|stem|] == '.';
  }

  lemma LastDotOf(front: string, ext: string)
    requires front != [] && front[0] != '.'
    requires ext != [] && ext[0] == '.' && '.' !in ext[1..]
    ensures ExtName(front + ext) == ext
  {
    var name := front + ext;
    var i := |front|;
    assert name[i] == '.';
    assert name[i..] == ext;
    match LastIndexOf(name, '.')
    case None =>
      assert false;
    case Some(j) =>
  }
}

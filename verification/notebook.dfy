/** The exported entry point: option defaults, the image and multi-column
    fragments, the filled header, and the document source written as header,
    walk, multi-column end and `\end{document}`; then the compile. */
module Notebook {
  import opened Text
  import opened Numbers
  import opened Walk
  import opened Template
  import opened Compile

  /** `value || fallback` for a string option: an empty or missing value
      gives way to the fallback. */
  function Default(value: string, fallback: string): string
  {
    if value != "" then value else fallback
  }

  /** The font size with a `pt` unit, appended only when missing. */
  function EnsurePt(size: string): (r: string)
    ensures EndsWith(r, "pt")
    ensures r == size || r == size + "pt"
    ensures EndsWith(size, "pt") ==> r == size
  {
    if EndsWith(size, "pt") then size else size + "pt"
  }

  /** Appending the unit is idempotent. */
  lemma EnsurePtIdempotent(size: string)
    ensures EnsurePt(EnsurePt(size)) == EnsurePt(size)
  {
  }

  /** `normalizeUnixStyle`: on Windows every backslash becomes a forward
      slash; elsewhere the path is kept. */
  function NormalizeUnixStyle(path: string, windows: bool): (r: string)
    ensures |r| == |path|
    ensures forall i :: 0 <= i < |path| ==> r[i] == if windows && path[i] == '\\' then '/' else path[i]
    ensures windows ==> '\\' !in r
  {
    if windows then
      ReplaceAllCharwise(path, '\\', '/');
      ReplaceAll(path, '\\', "/")
    else path
  }

  /** The header's image fragment: the resolved, normalised path inside
      `\centering{\includegraphics[width=3.5cm]{…}}`, or nothing without an
      image. `resolve` stands for `path.resolve`, which depends on the
      working directory. */
  function ImageFragment(image: string, windows: bool, resolve: string -> string): string
  {
    if image == "" then ""
    else "\\centering{\\includegraphics[width=3.5cm]{" + NormalizeUnixStyle(resolve(image), windows) + "}}"
  }

  /** `parseInt(columns) > 1`. */
  predicate MultiColumn(columns: string)
  {
    match ParseInt(columns)
    case Some(n) => n > 1
    case None => false
  }

  /** The multi-column opening, parameterised by the option's own text. */
  function MulticolsBegin(columns: string): string
  {
    if MultiColumn(columns) then "\\begin{multicols}{" + columns + "}" else ""
  }

  /** The multi-column closing, present exactly when the opening is. */
  function MulticolsEnd(columns: string): (r: string)
    ensures r == "" <==> MulticolsBegin(columns) == ""
  {
    if MultiColumn(columns) then "\\end{multicols}\n" else ""
  }

  /** For a column count written in decimal, possibly followed by text that
      is not a digit (`"3"`, `"2 columns"`, `"3x"`; only `0x` would start a
      hexadecimal prefix), the document goes multi-column
      exactly when the count is above 1. */
  lemma MulticolsDecimal(n: nat, rest: string)
    requires rest == [] || (DigitValue(rest[0]) >= 10 && (n == 0 ==> rest[0] != 'x' && rest[0] != 'X'))
    ensures MultiColumn(DecimalText(n) + rest) <==> n > 1
  {
    ParseIntDecimal(n, rest);
  }

  /** The settings of one run, updated in place by the defaults. */
  class Options {
    var output: string
    var author: string
    var initials: string
    var orientation: string
    var size: string
    var paper: string
    var columns: string
    var image: string

    constructor (output: string, author: string, initials: string, orientation: string,
                 size: string, paper: string, columns: string, image: string)
      ensures this.output == output && this.author == author && this.initials == initials
      ensures this.orientation == orientation && this.size == size && this.paper == paper
      ensures this.columns == columns && this.image == image
    {
      this.output := output;
      this.author := author;
      this.initials := initials;
      this.orientation := orientation;
      this.size := size;
      this.paper := paper;
      this.columns := columns;
      this.image := image;
    }

    /** Fills in the defaults, gives the size its unit and turns the image
      path into the header fragment. */
    method ApplyDefaults(windows: bool, resolve: string -> string)
      modifies this
      ensures output == Default(old(output), "./notebook.pdf")
      ensures author == old(author) && initials == old(initials)
      ensures orientation == Default(old(orientation), "portrait")
      ensures size == EnsurePt(old(size))
      ensures image == ImageFragment(old(image), windows, resolve)
      ensures paper == old(paper) && columns == old(columns)
    {
      output := Default(output, "./notebook.pdf");
      author := Default(author, "");
      initials := Default(initials, "");
      orientation := Default(orientation, "portrait");
      if !EndsWith(size, "pt") {
        size := size + "pt";
      }
      if image != "" {
        image := NormalizeUnixStyle(resolve(image), windows);
        image := "\\centering{\\includegraphics[width=3.5cm]{" + image + "}}";
      } else {
        image := "";
      }
    }

    /** The values the header is filled with. */
    function HeaderOf(): HeaderValues
      reads this
    {
      HeaderValues(author, initials, size, MulticolsBegin(columns), paper, orientation, image)
    }
  }

  /** The chunks of the document source, in the order they are written. */
  function Document(header: string, root: Node, columns: string): seq<string>
    requires root.Dir?
  {
    [header] + WalkOutput(root.children, 0) + [MulticolsEnd(columns), "\\end{document}"]
  }

  /** The document text starts with the header and ends with the
      multi-column end fragment and `\end{document}`, with the walk in
      between. */
  lemma DocumentText(header: string, root: Node, columns: string)
    requires root.Dir?
    ensures Concat(Document(header, root, columns))
      == header + Concat(WalkOutput(root.children, 0)) + MulticolsEnd(columns) + "\\end{document}"
  {
    ConcatFrame(header, WalkOutput(root.children, 0), MulticolsEnd(columns), "\\end{document}");
  }

  lemma ConcatFrame(head: string, body: seq<string>, x: string, y: string)
    ensures Concat([head] + body + [x, y]) == head + Concat(body) + x + y
  {
    ConcatAppend([head] + body, [x, y]);
    ConcatAppend([head], body);
    assert [head][1..] == [];
    assert [x, y][1..] == [y];
    assert [y][1..] == [];
    assert Concat([y]) == y + Concat([]);
  }

  /** With at most one column the document has no multi-column markup of its
      own: the end fragment is empty, and so is the value that fills the
      header's `${multicolsBegin}`. */
  lemma SingleColumnDocument(header: string, root: Node, columns: string)
    requires root.Dir? && !MultiColumn(columns)
    ensures Concat(Document(header, root, columns)) == header + Concat(WalkOutput(root.children, 0)) + "\\end{document}"
    ensures MulticolsBegin(columns) == ""
  {
    var body := Concat(WalkOutput(root.children, 0));
    DocumentText(header, root, columns);
    assert MulticolsEnd(columns) == "";
    assert header + body + "" == header + body;
  }

  /** Writes the document source for the tree under `root`: defaults are
      applied to `options`, the header is filled from `template`, and the
      chunks go to a fresh stream that is closed at the end. */
  method Generate(root: Node, options: Options, template: string, windows: bool, resolve: string -> string)
      returns (texOutput: Sink)
    requires root.Dir?
    modifies options
    ensures fresh(texOutput) && texOutput.closed
    ensures options.output == Default(old(options.output), "./notebook.pdf")
    ensures options.author == old(options.author) && options.initials == old(options.initials)
    ensures options.orientation == Default(old(options.orientation), "portrait")
    ensures options.size == EnsurePt(old(options.size))
    ensures options.image == ImageFragment(old(options.image), windows, resolve)
    ensures options.paper == old(options.paper) && options.columns == old(options.columns)
    ensures texOutput.written == Document(FillHeader(template, options.HeaderOf()), root, options.columns)
  {
    options.ApplyDefaults(windows, resolve);
    var multicolsBegin := "";
    var multicolsEnd := "";
    if MultiColumn(options.columns) {
      multicolsBegin := "\\begin{multicols}{" + options.columns + "}";
      multicolsEnd := "\\end{multicols}\n";
    }
    assert multicolsBegin == MulticolsBegin(options.columns) && multicolsEnd == MulticolsEnd(options.columns);
    var values := HeaderValues(options.author, options.initials, options.size,
      multicolsBegin, options.paper, options.orientation, options.image);
    assert values == options.HeaderOf();
    var header := FillHeader(template, values);
    texOutput := WriteDocument(header, root, multicolsEnd);
  }

  /** The writes of the document source, to a new stream. */
  method WriteDocument(header: string, root: Node, multicolsEnd: string) returns (texOutput: Sink)
    requires root.Dir?
    ensures fresh(texOutput) && texOutput.closed
    ensures texOutput.written == [header] + WalkOutput(root.children, 0) + [multicolsEnd, "\\end{document}"]
  {
    texOutput := new Sink();
    texOutput.Write(header);
    WalkToStream(root, 0, texOutput);
    texOutput.Write(multicolsEnd);
    texOutput.End("\\end{document}");
  }

  /** The whole run: the document source is written and closed, and only
      then is the compile started on it, in the temporary directory
      `tmpDir`. The artifact is looked for where the renderer puts it, next
      to the source, by the corrected `Compile.ArtifactPath`; it agrees with
      the first-dot derivation `Compile.ArtifactPathAsWritten` whenever
      `tmpDir` has no dot. */
  method Notebook(root: Node, options: Options, template: string, windows: bool, resolve: string -> string,
                  tmpDir: string, present: seq<bool>)
      returns (texOutput: Sink, artifact: string, compile: Run)
    requires root.Dir? && |present| > Iterations(windows)
    modifies options
    ensures fresh(texOutput) && texOutput.closed
    ensures options.output == Default(old(options.output), "./notebook.pdf")
    ensures options.author == old(options.author) && options.initials == old(options.initials)
    ensures options.orientation == Default(old(options.orientation), "portrait")
    ensures options.size == EnsurePt(old(options.size))
    ensures options.image == ImageFragment(old(options.image), windows, resolve)
    ensures options.paper == old(options.paper) && options.columns == old(options.columns)
    ensures texOutput.written == Document(FillHeader(template, options.HeaderOf()), root, options.columns)
    ensures artifact == tmpDir + [Separator(windows)] + "_notebook.pdf"
    ensures '.' !in tmpDir ==> artifact == ArtifactPathAsWritten(TexPath(tmpDir, windows))
    ensures compile == Countdown(windows, present)
  {
    texOutput := Generate(root, options, template, windows, resolve);
    var texPath := TexPath(tmpDir, windows);
    artifact := ArtifactPath(texPath);
    ArtifactPathOfTexPath(tmpDir, windows);
    if '.' !in tmpDir {
      ArtifactPathAsWrittenDotFree(tmpDir, windows);
    }
    var invocations, outcome, tempRemoved := PdflatexFromPath(windows, present);
    compile := Run(invocations, outcome, tempRemoved);
  }
}

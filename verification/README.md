# notebook-generator, modelled in Dafny

notebook-generator turns a directory of source files into one LaTeX
document (a programming-contest "notebook") and compiles it to PDF with
`pdflatex`. This project models its core, `notebookgen.js`, and proves
properties of that model:

- **Escaping** (`escape.dfy`, module `Escape`): `escapeLatex` is modelled
  as its ten global single-character replacements, run in the source's
  order. It is proved equal to a per-character table, `EscapeChar`, which
  records the order effects: a lone `\` becomes `\textbackslash\{\}`, and
  `^` becomes `\^{}`.
- **The walk** (`walk.dfy`, module `Walk`): `walkToStream` over a tree of
  `Dir`/`File` nodes, whose children keep the order the directory listing
  gave. The pure functions `WalkOutput`/`Entry` say what gets written. The
  methods `WalkToStream`, `WriteEntry`, `WriteFile` and `WriteListing`
  append chunks to a `Sink`, a class holding the written chunks and a
  closed flag, and are proved to write exactly that.
- **The header template** (`template.dfy`, module `Template`):
  `templateParameter` and the chain of seven `.replace` calls. Each call
  replaces only the first occurrence. The replacement's `$`-patterns
  (`$$`, `$&`, `` $` ``, `$'`) are modelled as ECMAScript's
  GetSubstitution defines them (no capture groups).
- **The exported function** (`notebook.dfy`, module `Notebook`):
  - option defaults, applied in place to an `Options` object;
  - the `pt` suffix and the image fragment, using `normalizeUnixStyle`;
  - the multi-column fragments, chosen by `parseInt(columns) > 1`;
  - the document: header, walk, multi-column end, then `\end{document}`.
- **`parseInt`** (`numbers.dfy`, module `Numbers`): ECMAScript's global
  `parseInt` without a radix, as applied to the `columns` option. `None`
  stands for `NaN`.
- **The compile** (`compile.dfy`, module `Compile`): `genpdf` and
  `pdflatexFromPath` as a countdown over an oracle. `present[k]` says
  whether the PDF exists after pass `k`. The artifact path is modelled
  both as the source derives it and as it should be derived.
- **String helpers** (`text.dfy`, module `Text`): concatenation of
  chunks, global single-character replacement, `String.prototype.replace`
  with a string pattern, first and last index, and "text before the
  first `c`".

The platform checks (`os.type() === 'Windows_NT'`,
`process.platform === 'win32'`) become one `windows: bool` parameter.
`path.resolve` becomes a function parameter `resolve`. The temporary
directory becomes its path `tmpDir`.

## Model

| member | source | states |
|---|---|---|
| Escape.EscapeLatexIsCharwise | notebookgen.js:20-32 | the ten passes, in code order, equal per-character escaping by `EscapeChar`; so characters outside the ten are neither altered nor reordered |
| Escape.EscapeLatexIdentity | notebookgen.js:20-32 | a text with none of `\ _ { } $ # & ^ ~ %` is returned unchanged |
| Escape.EscapeLatexConcat | notebookgen.js:20-32 | escaping distributes over concatenation |
| Escape.EscapeLatexOneChar | notebookgen.js:20-32 | on a single character the ten passes give `EscapeChar` of it |
| Escape.EscapeBackslash | notebookgen.js:22-25 | `\` becomes `\textbackslash\{\}`: passes three and four escape the braces that pass one introduced |
| Escape.EscapeUnderscore | notebookgen.js:23 | `_` becomes `\_` |
| Escape.EscapeOpenBrace | notebookgen.js:24 | `{` becomes `\{` |
| Escape.EscapeCloseBrace | notebookgen.js:25 | `}` becomes `\}` |
| Escape.EscapeDollar | notebookgen.js:26 | `$` becomes `\$` |
| Escape.EscapeHash | notebookgen.js:27 | `#` becomes `\#` |
| Escape.EscapeAmpersand | notebookgen.js:28 | `&` becomes `\&` |
| Escape.EscapeCaret | notebookgen.js:29 | `^` becomes `\^{}`; its braces come after the brace passes and stay unescaped |
| Escape.EscapeTilde | notebookgen.js:30 | `~` becomes `\~{}`, braces unescaped |
| Escape.EscapePercent | notebookgen.js:31 | `%` becomes `\%` |
| Escape.EscapeCharsLength | notebookgen.js:20-32 | escaping never shortens a text; it lengthens any text holding a reserved character and leaves a backslash in it |
| Escape.EscapeLatexNotIdempotent | notebookgen.js:20-32 | escaping an already escaped text that held a reserved character changes it again |
| Walk.Level | notebookgen.js:36 | the heading index is `Math.min(depth, 2)`: equal to the depth below 3, and 2 at every depth of 2 or more |
| Walk.ExtName | notebookgen.js:47 | the extension is empty or a dot followed by no other dot; it is a suffix of the name; when it is empty, a name not starting with `.` has no dot |
| Walk.FileNameParts | notebookgen.js:47-48 | for `stem + middle + ext`, the title is `stem` (cut at the first dot) while the registry key is `ext` (from the last dot), so `a.b.py` is Python titled `a` |
| Walk.WalkToStream | notebookgen.js:34-59 | appends exactly `WalkOutput(children, depth)` to the stream: each listed entry's output in listing order, and the stream stays open |
| Walk.WriteEntry | notebookgen.js:38-56 | a hidden entry writes nothing; a directory writes its heading with the escaped full name, then its children one level deeper; a file writes `FileEntry` |
| Walk.WriteFile | notebookgen.js:47-56 | an unregistered extension writes nothing; a `.tex` file writes its heading and raw content; another registered file writes its heading, the `lstlisting` opening with the registry's language, its raw content and the closing |
| Walk.WriteListing | notebookgen.js:49-53 | writes heading, `\begin{lstlisting}[language=L]\n`, content and `\end{lstlisting}\n`, in this order |
| Walk.Sink.Write | notebookgen.js:45 | `output.write` appends one chunk to an open stream |
| Walk.Sink.End | notebookgen.js:154 | `output.end` appends a last chunk and closes the stream |
| Walk.WalkAppend | notebookgen.js:37 | the output for a listing is the outputs of its parts in order: nothing is sorted or reordered |
| Walk.WalkSnoc | notebookgen.js:37 | the output for a listing with one more entry is the old output followed by that entry's |
| Walk.WalkDeep | notebookgen.js:36 | at any depth of 2 or more, the output equals the output at depth 2: `\subsubsection{` is reused |
| Walk.Prune | notebookgen.js:38-47 | the pruned listing is no longer than the original, and every entry left is shown |
| Walk.PruneNode | notebookgen.js:38-47 | pruning keeps an entry's name and its kind |
| Walk.WalkPrune | notebookgen.js:38-47 | deleting hidden entries and unregistered files at every level leaves the output unchanged |
| Walk.EntryPrune | notebookgen.js:43-47 | the same for one entry and everything beneath it |
| Walk.WalkSkipsHidden | notebookgen.js:38-40 | removing one entry that is not shown, from anywhere in a listing, leaves the output unchanged |
| Template.Tokens | notebookgen.js:112-114 | the i-th token is `${name_i}` |
| Text.ReplaceFirstSpec | notebookgen.js:142-149 | `.replace` with a string pattern and a `$`-free value replaces only the first occurrence and keeps all else |
| Template.FillStep | notebookgen.js:142-149 | one `.replace`: the first token is exchanged for the value, and the text after it is kept verbatim, even if it holds the token again |
| Template.FillInterleave | notebookgen.js:141-149 | filling a template that holds the tokens in fill order, between `$`-free texts, puts each value in its token's place and keeps every other character |
| Template.FillHeaderLayout | notebookgen.js:141-149 | the same for the seven header placeholders in the order author, initials, fontSize, multicolsBegin, paper, orientation, image |
| Template.FillNoPlaceholder | notebookgen.js:141-149 | a template without `$` comes out unchanged |
| Template.DollarAmpersandKeepsToken | notebookgen.js:142-149 | a value of `$&` puts the matched token back, so the placeholder stays in the header |
| Numbers.TrimStart | notebookgen.js:132 | `parseInt` skips exactly the leading ECMAScript white space and line terminators |
| Numbers.DigitPrefix | notebookgen.js:132 | the digits read are the longest prefix of digits of the radix |
| Numbers.DecimalText | notebookgen.js:132 | a decimal numeral is non-empty, all digits, and has no leading zero |
| Numbers.DecimalTextValue | notebookgen.js:132 | a decimal numeral denotes its number |
| Numbers.ParseIntDecimal | notebookgen.js:132 | `parseInt` reads a decimal numeral back, whatever non-digit text follows it (`"3x"` gives 3; only after `0` does an `x` start a hexadecimal prefix) |
| Numbers.ParseIntNaN | notebookgen.js:132 | a text with no digit after its leading white space and optional sign (`""`, `"-x"`, `"+"`, `" -"`) gives `NaN` |
| Notebook.EnsurePt | notebookgen.js:122 | the result ends with `pt` and is either the size itself or the size with `pt` appended; it is the size itself exactly when that already ends with `pt` (`"10p"` gives `"10ppt"`) |
| Notebook.EnsurePtIdempotent | notebookgen.js:122 | appending the unit twice is appending it once |
| Notebook.NormalizeUnixStyle | notebookgen.js:105-110 | same length; on Windows each `\` becomes `/` and nothing else changes, so no `\` is left; elsewhere the path is unchanged |
| Notebook.MulticolsEnd | notebookgen.js:130-135 | the closing fragment is empty exactly when the opening is |
| Notebook.MulticolsDecimal | notebookgen.js:132 | a decimal column count `n`, possibly followed by non-digits (`"3x"` included), makes the document multi-column exactly when `n > 1` |
| Notebook.Options.constructor | notebookgen.js:116 | the options object holds the given values |
| Notebook.Options.ApplyDefaults | notebookgen.js:117-128 | output falls back to `./notebook.pdf` and orientation to `portrait` when empty; author and initials keep their text; size gets `pt`; image becomes the fragment, or empty; paper and columns are unchanged |
| Notebook.DocumentText | notebookgen.js:151-154 | the document text is header, walk output, multi-column end fragment and `\end{document}`, in this order |
| Notebook.SingleColumnDocument | notebookgen.js:130-135 | with at most one column, no multi-column markup is written: the end fragment and the header's begin value are empty |
| Notebook.WriteDocument | notebookgen.js:138-154 | a fresh stream receives header, walk at depth 0, end fragment and `\end{document}`, then is closed |
| Notebook.Generate | notebookgen.js:116-154 | leaves the options as `ApplyDefaults` does (output and orientation defaults, `pt`, image fragment; author, initials, paper and columns unchanged) and writes `Document(header, root, columns)` to a fresh closed stream, the header being the template filled with those option values |
| Notebook.Notebook | notebookgen.js:116-162 | the same options and document as `Generate`, then the compile countdown; the artifact looked for is `_notebook.pdf` in the temporary directory (the corrected derivation), which is what line 79 derives whenever the directory's path has no dot |
| Compile.Genpdf | notebookgen.js:65-95 | from pass `p` with counter `iter`, between `p+1` and `p+iter+1` passes are started in total; the temporary directory is removed exactly when the PDF is streamed out |
| Compile.GenpdfAllPresent | notebookgen.js:81-91 | when the PDF exists after every pass, `iter + 1` more passes run and the compile succeeds |
| Compile.GenpdfFirstMissing | notebookgen.js:81-83 | when pass `k` is the first without a PDF, `k + 1` passes have run, the compile failed, and the directory is kept |
| Compile.PdflatexFromPath | notebookgen.js:97-103 | the loop over passes ends in the same state as the countdown started at 2 on Windows and 1 elsewhere |
| Compile.CountdownSucceeds | notebookgen.js:84-101 | with the PDF after every pass, `pdflatex` runs `Iterations + 1` times (3 on Windows, 2 elsewhere), and the PDF is streamed and the directory removed |
| Compile.CountdownStopsAtFirstMissing | notebookgen.js:81-101 | if pass `k` leaves no PDF, no pass `k+1` is started, the compile fails, and the directory is not removed |
| Compile.ArtifactPathAsWritten | notebookgen.js:79 | as written: a prefix of the path with no dot, ending where the path's first dot is (or at its end), then `.pdf` |
| Compile.ArtifactPathAsWrittenMisses | notebookgen.js:79 | a dot in the temporary directory's path makes the as-written derivation name a different file from the one the renderer writes |
| Compile.ArtifactPathAsWrittenDotFree | notebookgen.js:79 | without a dot in the directory's path, the as-written derivation finds the file |
| Compile.ArtifactPath | notebookgen.js:79 | corrected: the path's last extension replaced, and the result always ends in `.pdf` |
| Compile.ArtifactPathOfTexPath | notebookgen.js:79 | for every temporary directory, the corrected derivation names `_notebook.pdf` next to `_notebook.tex` |
| Escape.EscapeLatex | notebookgen.js:20-32 | definition: the ten passes in code order; see `EscapeLatexIsCharwise` |
| Walk.WalkOutput | notebookgen.js:34-59 | definition: the chunks written for a directory listing; see `WalkToStream`, `WalkAppend`, `WalkDeep`, `WalkPrune` |
| Walk.Entry | notebookgen.js:38-56 | definition: the chunks for one entry; see `WriteEntry`, `EntryPrune` |
| Walk.FileEntry | notebookgen.js:47-56 | definition: the chunks for a shown file; see `WriteFile` |
| Walk.Heading | notebookgen.js:44-45 | definition: newline, section command, `\text{ `, escaped title, ` }`, closing brace and newline |
| Walk.Stem | notebookgen.js:48 | definition: `file.split('.')[0]`; see `FileNameParts` |
| Template.TemplateParameter | notebookgen.js:112-114 | definition: `${name}`; see `Tokens` |
| Template.Fill | notebookgen.js:142-149 | definition: one first-occurrence replacement per name, left to right; see `FillInterleave`, `FillNoPlaceholder` |
| Template.FillHeader | notebookgen.js:141-149 | definition: the seven placeholders in source order; see `FillHeaderLayout` |
| Text.ReplaceFirst | notebookgen.js:142-149 | definition: `String.prototype.replace` with a string pattern; see `ReplaceFirstSpec`, `DollarAmpersandKeepsToken` |
| Text.Substitution | notebookgen.js:142-149 | definition: ECMAScript's GetSubstitution without capture groups; see `DollarAmpersandKeepsToken` |
| Numbers.ParseInt | notebookgen.js:132 | definition: `parseInt` without a radix; see `ParseIntDecimal`, `ParseIntNaN` |
| Notebook.Default | notebookgen.js:117-120 | definition: the value unless it is empty, else the fallback; see `ApplyDefaults` |
| Notebook.ImageFragment | notebookgen.js:123-128 | definition: the resolved, normalised path in `\centering{\includegraphics[width=3.5cm]{…}}`, or empty; see `ApplyDefaults` |
| Notebook.MulticolsBegin | notebookgen.js:130-135 | definition: `\begin{multicols}{columns}` when `parseInt(columns) > 1`, else empty; see `MulticolsEnd`, `MulticolsDecimal` |
| Notebook.Document | notebookgen.js:151-154 | definition: the chunks written, in order; see `DocumentText`, `Generate` |
| Compile.Iterations | notebookgen.js:100 | definition: 2 on Windows, 1 elsewhere; see `CountdownSucceeds` |
| Compile.Countdown | notebookgen.js:97-101 | definition: `genpdf` started at pass 0 with `Iterations`; see `PdflatexFromPath`, `CountdownSucceeds`, `CountdownStopsAtFirstMissing` |
| Compile.TexPath | notebookgen.js:138 | definition: `path.join(tmpDir, '_notebook.tex')`; see `ArtifactPathOfTexPath` |

## Left out

- File system reads (`readdirSync`, `lstatSync`, `readFileSync`, `fs.access`) are replaced by the `Node` tree and the `present` oracle. Following symbolic links as `lstat` sees them and UTF-8 decoding are not modelled.
- `spawn`, the exit, error and close events, `through2` and stream piping, and `console.error` reporting are asynchronous I/O. Only the countdown's decisions are kept. `Notebook.Notebook` runs the compile after the stream is closed, which is the order the `close` handler imposes.
- `tmp.dirSync` and `removeCallback` are reduced to the directory path and the `tempRemoved` flag. `path.resolve` depends on the working directory and is a parameter. `path.join` is modelled only for the source's one use, `TexPath`.
- The content of `template_header.tex` is not part of this model. The template is any string.
- Options that are `undefined`: only strings are modelled, so a missing option is the empty string. `String(undefined)` filling the header when `paper` is missing, and the exception `options.size.endsWith` throws when size is missing, are not modelled.
- Numbers.ParseInt: the value is an unbounded integer. The rounding of very long numerals to a double is not modelled.
- Notebook.Notebook: looks for the artifact with the corrected `Compile.ArtifactPath` rather than the first-dot derivation of line 79; the two agree whenever the temporary directory's path has no dot, and the Findings table records the difference.
- Walk.ExtName: agrees with `path.extname` on every name the walk looks at. Names starting with `.` are skipped before the extension is taken.
- test/verify_layout.js only starts the command-line program and checks its exit status. It is not part of this model.

## Findings

| source | as written | input that shows it | evidently intended | confidence | as-written member | corrected member |
|---|---|---|---|---|---|---|
| notebookgen.js:79 | `texPath.split('.')[0] + '.pdf'` cuts the path at its first dot anywhere | a Windows user named `john.doe`: the temporary directory `C:\Users\john.doe\AppData\Local\Temp\tmp-1` makes the check look for `C:\Users\john.pdf`, so every compile reports "Not generated" | replace only the extension of `_notebook.tex`, giving `_notebook.pdf` in the temporary directory | not executed | Compile.ArtifactPathAsWritten, Compile.ArtifactPathAsWrittenMisses | Compile.ArtifactPath, Compile.ArtifactPathOfTexPath |

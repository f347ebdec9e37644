# Inertia backend jump — verified model of the extension's core

The extension jumps from an Inertia `.vue` page to the PHP controller action
that renders it, and shows a preview of that action's method on hover. This
project models its three core operations from `src/extension.ts`:

- **Path Resolver** (`ComponentPath`, pure): `extractComponentPath` turns a
  page file path into an Inertia component path. The prefix is
  `<workspace>/resources/js/pages/`, and one trailing `.vue` is removed.
- **Action Locator** (`ActionLocator`, imperative): `findActionInControllers`
  scans controller files in order. It skips each file that does not contain
  `return $this->responser`. It also skips each file whose text does not
  match the binding regex `$ctx->component = fn () => '<path>'`. In the first
  file that passes both filters, it returns the first line that contains
  `$ctx-><action>`.
- **Method Previewer** (`MethodPreview`, imperative):
  `extractMethodPreview` works in three steps.
  1. It walks back from a line to the nearest method signature.
  2. It walks forward, counting braces, to the line that closes the method.
  3. It returns up to 30 of those lines, joined by newlines. When the method
     is longer it appends the marker `    // ... method continues ...`.

Supporting modules:

- **`Text`** gives JavaScript's `includes`, `startsWith` and `endsWith`. It
  also gives `split` and `join` on one character (`"".split` is `[""]`), and
  proves their round trips.
- **`Regex`** is a small backtracking matcher, `MatchAt`/`Test`, for the two
  regular expressions the core builds. It covers literal characters, the
  classes `\s`, `\w`, quote and `.`, `*`/`+` repetition of a class, `\b` and
  an optional alternative group. For each pattern it proves a lemma that
  states in plain terms which texts the pattern matches.

Each loop in the source becomes a Dafny `method` with loop invariants.
`FindActionInControllers` is a method with a nested loop.
`ExtractMethodPreview` is a method that calls two loop methods,
`FindMethodStart` for the backward loop and `FindMethodEnd` for the nested
forward loop over lines and characters.
Each method is proved equal to a specification function: `FindAction`,
`StartLine`, `EndLine` and `Preview`. Lemmas then state what those functions
mean.

Inputs that come from outside the core are parameters:

- The controller files that `walk` and `readFileSync` would produce are a
  `seq<SourceFile>` of paths and contents, in walk order.
- The file text read by `extractMethodPreview` is an `Option<string>`, where
  `None` is a read that throws.

Behaviour kept from the code as written:

- **Access keyword without white space.** The signature regex accepts an
  access keyword that runs straight into `function`, as in
  `publicfunction foo`. This is because `\s*` may be empty.
- **Lowered brace count.** A `}` lowers the brace count before any `{`, even
  though `foundStart` is still false.
- **Count back to zero without a closing brace.** On a line such as `} {`
  the brace count can return to zero on a `{`. The outer loop then stops,
  but `endLine` keeps its default, `lineNumber`. `SettlesLine` is this case,
  and `ScanLinesMeaning` and `EndLineMeaning` state it.
- **Line number past the end.** A line number past the last line makes
  `lines[i].match` throw. The `catch` turns that into `null`, which is
  `None` here.

## Model

| member | source | states |
|---|---|---|
| ComponentPath.ExtractComponentPath | src/extension.ts:73-81 | `None` exactly when the file is not under `<workspace>/resources/js/pages/`. Otherwise the file is the prefix, then the result, then `.vue` exactly when the rest ended in `.vue`. |
| ComponentPath.PageResolves | src/extension.ts:78-80 | The page `<pages>/<component>.vue` resolves to exactly `component`. |
| ComponentPath.NonVueResolves | src/extension.ts:78-80 | A file under the pages directory that does not end in `.vue` keeps its whole relative path. |
| Text.Split | src/extension.ts:101 | `split('\n')` gives at least one piece, and no piece contains the separator. |
| Text.JoinSplit | src/extension.ts:101 | Joining the pieces of a split gives back the original text. |
| Text.SplitJoin | src/extension.ts:174 | Splitting a join of separator-free pieces gives back those pieces. |
| Text.JoinSnoc | src/extension.ts:174-176 | Appending `'\n' + s` to a join is the join with `s` added as a last piece. |
| Regex.MatchLits | src/extension.ts:95 | A literal word matches exactly where it occurs, and the rest of the pattern must match after it. |
| Regex.MatchMany | src/extension.ts:95 | `\s*` (any class repeated) matches exactly when the rest matches after some run of class characters. |
| Regex.SpacedMatches | src/extension.ts:95 | Words separated by white-space runs, then the tail, match the `w0\s*w1\s*…` pattern. |
| Regex.SpacedMatchIsText | src/extension.ts:95 | Every match of the `w0\s*w1\s*…` pattern is such words and runs followed by a match of the tail. |
| ActionLocator.MatchPath | src/extension.ts:95 | The interpolated component path matches the path itself. For a path without `.` it matches nothing else. |
| ActionLocator.ComponentBoundMeaning | src/extension.ts:94-98 | If the text holds `$ctx->component`, `=`, `fn`, `()`, `=>` separated by optional white space, then a quote, the path and a quote, the binding test passes. For a path without `.`, a passing test means the text holds such a binding. |
| ActionLocator.FirstLineWith | src/extension.ts:102-106 | The result is the first line index at or after `from` whose line contains the needle. `None` means no such line exists. |
| ActionLocator.FindActionInControllers | src/extension.ts:83-109 | The nested scan returns exactly `FindAction`, the first qualifying file and its first action line. |
| ActionLocator.QualifiesMeaning | src/extension.ts:89-106 | A file yields a result exactly when it has the responder marker and the component binding, and some line contains `$ctx-><action>`. |
| ActionLocator.FindActionSound | src/extension.ts:86-107 | A result names a file that passes both filters, and the first line of that file naming the action. Every earlier file yields nothing. |
| ActionLocator.FindActionNone | src/extension.ts:86-108 | The result is `null` exactly when no file qualifies. |
| ActionLocator.HitIsFirstActionLine | src/extension.ts:89-106 | When a file yields a line, the file passes both filters and the line is its first action line. |
| ActionLocator.FindFromHitIff | src/extension.ts:86-108 | The scan from file `k` finds something exactly when some file from `k` on yields a line. |
| ActionLocator.FindFromFirst | src/extension.ts:86-107 | A scan that finds something stops at the first file that yields a line, and returns that file's path and line. |
| ActionLocator.AcceptedWithoutActionIsSkipped | src/extension.ts:100-107 | A file that passes both filters but has no action line does not stop the search. The scan goes on to the next file. |
| ActionLocator.UnmarkedIsSkipped | src/extension.ts:89-92 | A file without `return $this->responser` is skipped, whatever else it holds. |
| MethodPreview.SignatureMeaning | src/extension.ts:136 | A line is a signature exactly when it holds, at a word boundary: an optional `public`/`protected`/`private`, optional white space, `function`, at least one white-space character and a word character. |
| MethodPreview.SignatureAtOrBefore | src/extension.ts:135-140 | The result is the nearest signature line at or before `i`, or `None` when no line from 0 to `i` is a signature. |
| MethodPreview.StartLine | src/extension.ts:134-140 | The start is at or before the line number. It is the nearest signature line when there is one, and otherwise the line number itself with no signature back to line 0. |
| MethodPreview.FindMethodStart | src/extension.ts:133-140 | The backward loop returns `StartLine`. It returns `None` when the line number is past the last line, where the source throws. |
| MethodPreview.ScanCharsMeaning | src/extension.ts:151-162 | The character loop stops exactly at a `}` that brings the running count back to zero after a `{` has been seen. Otherwise it ends with the count moved by the line's brace depth and the flag set if the line has a `{`. |
| MethodPreview.ScanLinesMeaning | src/extension.ts:147-167 | The line loop stops at line `e` exactly when `e` is the first line with a closing `}`, and no earlier line ended with the count at zero after a `{`. |
| MethodPreview.EndLineMeaning | src/extension.ts:143-167 | `endLine` is the line that closes the method when one exists, and `lineNumber` when none does. |
| MethodPreview.FindMethodEnd | src/extension.ts:142-167 | The brace-counting nested loop returns `EndLine`. |
| MethodPreview.ExcerptLines | src/extension.ts:169-177 | Split at newlines, the excerpt is the first `min(end, start + 29) - start + 1` method lines, plus the marker line when the method is longer than 30 lines. |
| MethodPreview.ExcerptShape | src/extension.ts:169-177 | The excerpt shows the method's first lines, at most 30 of them, with the continuation marker exactly when the method has more. |
| MethodPreview.PreviewMeaning | src/extension.ts:128-183 | The preview is `null` exactly when the read fails or the line does not exist. Otherwise its lines are the method's lines from `StartLine` to `EndLine`, cut at 30, with the marker exactly when the method is cut. |
| MethodPreview.ExtractMethodPreview | src/extension.ts:128-183 | The method returns exactly `Preview` of the read result and the line number. |

## Left out

- `activate`, the definition and hover providers, and the registration code (src/extension.ts:5-71) are left out. They are VS Code editor integration. Their use of the core is the three operations above.
- `walk` (src/extension.ts:111-126) is left out. It is directory traversal. Its output, the `.php` files in traversal order, is the `files` parameter.
- The file system is left out. Reading a file in `findActionInControllers` is modelled as a successful read: a read that throws there escapes the function, and that is not modelled. In `extractMethodPreview` the read is `content: Option<string>`.
- `path.join` normalisation is left out. The workspace path is taken as normalised, without a trailing slash, so the prefix is `workspace + "/resources/js/pages/"`.
- The caller's check `if (!componentPath) return` happens outside the core and is not modelled.
- ActionLocator.PathPattern: the component path is interpolated unescaped apart from `/`. In the model `.` matches one character other than a line terminator, and every other character is literal. Other regular-expression metacharacters in a component path are not modelled.
- ActionLocator.PathPattern: the binding regex has no `u` flag, so JavaScript's `.` matches one UTF-16 code unit, while the model's `.` matches one whole character. They differ on characters outside the Basic Multilingual Plane. For the path `a.b`, the binding `'a😀b'` passes in the model, but JavaScript rejects it. All other pattern elements (literals, `\s`, `\w`, quotes, `\b`) treat such characters the same way in both.
- ActionLocator.ComponentBoundMeaning: the necessity direction is stated only for paths without `.`, because `.` also matches characters other than itself.
- `for (const char of line)` iterates by code point. Dafny strings are sequences of Unicode scalar values, so the brace counts are the same.
- `String.prototype.split` keeps a `'\r'` at the end of a line. The model keeps it too and needs no special case.

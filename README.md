# Asset seed-script builder, modelled in Dafny

`tools/compile_assets.js` packs a directory of static web assets into one
PostgreSQL seed script. It walks the asset directory recursively in pre-order.
For each regular file it builds one row that holds:

- the file's web path: the path relative to the asset root, with host
  separators turned into `/`, behind a leading `/`;
- its MIME type, with `application/octet-stream` as the fallback;
- an ETag: the lowercase hex MD5 of the bytes;
- the bytes as a PostgreSQL `bytea` hex literal (`\x` and two lowercase hex
  digits per byte).

If at least one row was built, the script is a fixed `TRUNCATE …; INSERT …
VALUES` header, then the rows joined by `,\n`, then `;`. If there are no
rows, nothing is written.

The model works on an in-memory tree instead of the filesystem:

- `Tree.Node` is `File(name, bytes) | Dir(name, children)`.
- The root's entries are listed in the order the host returns them.
- The host comes in as a `Records.Host` value holding the path separator,
  the MIME table (a partial function) and MD5 (a function returning a 16-byte
  `Digest`).

The mutable build state (module-level `sql` and `values`) becomes the class
`Compiler.AssetCompiler`. `WalkDir` loops over a listing and hands each entry
to `Visit`. `Visit` recurses into a subdirectory through `WalkDir`, or lets
`PackFile` append a regular file's row to `values`. `PackFile` is the inline
file branch of the script's loop body. `Finish` extends `sql` exactly
when `values` is non-empty. Each method is proved against a pure
specification:

- `Tree.Leaves` is the pre-order list of regular files.
- `Records.Record` is the row of one file.
- `Compiler.Script` is the script written, or `None` when nothing is written.

Modules:

- `wrappers.dfy`: `Option`.
- `strings.dfy`: JavaScript `split`/`join` on strings, with a character-by-character `Replace` as an independent reference.
- `hex.dfy`: the hex encoder and decoder, and the `bytea` literal.
- `tree.dfy`: the tree, the pre-order file list and reachability.
- `records.dfy`: web path, content type, ETag and the row template.
- `compiler.dfy`: the build class, the script and the properties of the whole run.

Only the host separator `path.sep` is replaced (line 30). With `/` as the
separator, a `\` in a file name therefore stays in the web path; see
`Records.WebPathKeeps` and `Records.WebPathHasNoSeparator`.

## Model

| member | source | states |
|---|---|---|
| `Strings.Split` | tools/compile_assets.js:30 | `split(sep)` always yields at least one piece, and no piece holds the separator |
| `Strings.Replace` | tools/compile_assets.js:30 | reference for separator normalisation: same length, each separator character becomes the new one, every other character stays |
| `Strings.Join` | tools/compile_assets.js:55 | `Array.prototype.join`, used here and on line 30: the parts with the separator between neighbours, `""` for no parts; its layout is `Strings.JoinAt`, its inverse `Strings.SplitJoin` |
| `Strings.JoinSplitIsReplace` | tools/compile_assets.js:30 | `s.split(c).join(d)` equals replacing every `c` in `s` by `d` |
| `Strings.JoinSplit` | tools/compile_assets.js:30 | splitting and re-joining on the same character gives back the string |
| `Strings.ReplaceRemoves` | tools/compile_assets.js:30 | after replacing `c` by a different character, no `c` is left |
| `Strings.ReplaceKeeps` | tools/compile_assets.js:30 | any character other than the two is present after replacing exactly when it was present before |
| `Strings.SplitJoin` | tools/compile_assets.js:30 | splitting undoes joining when no part holds the separator |
| `Strings.JoinInjective` | tools/compile_assets.js:30 | joining non-empty lists of separator-free parts is injective |
| `Strings.JoinChars` | tools/compile_assets.js:27-30 | a non-separator character is in the joined path exactly when some name holds it |
| `Strings.JoinAt` | tools/compile_assets.js:55 | in `parts.join(sep)` each part sits at its offset, every part but the last is followed by `sep`, and the string ends with the last part |
| `Hex.HexDigit` | tools/compile_assets.js:41 | a nibble's digit is a lowercase hex digit that reads back as that nibble |
| `Hex.DigitValue` | tools/compile_assets.js:41 | exactly the lowercase hex digits have a value, and that value is below 16 |
| `Hex.Encode` | tools/compile_assets.js:41 | `toString('hex')` gives two characters per byte, all from `0-9a-f` |
| `Hex.Decode` | tools/compile_assets.js:41 | a successful decode gives one byte per two characters |
| `Hex.DigitOf` | tools/compile_assets.js:41 | a lowercase hex digit is the digit of its own value, so digits and nibbles correspond one to one |
| `Hex.DecodeEncode` | tools/compile_assets.js:41 | decoding the hex of any bytes gives back those bytes |
| `Hex.EncodeDecode` | tools/compile_assets.js:41 | a string decodes to some bytes if and only if it is their hex encoding |
| `Hex.DecodedIsEncoding` | tools/compile_assets.js:41 | whatever decodes to some bytes is exactly their lowercase hex encoding |
| `Hex.EncodeAppend` | tools/compile_assets.js:41 | encoding works byte by byte, so it distributes over concatenation |
| `Hex.Bytea` | tools/compile_assets.js:41 | the `bytea` literal: `\x` followed by the bytes' lowercase hex; its shape is `Hex.ByteaShape`, its inverse `Hex.ByteaRoundTrip` |
| `Hex.ByteaShape` | tools/compile_assets.js:40-41 | the `bytea` literal is `\x` then lowercase hex digits, of length `2 + 2·n` |
| `Hex.ByteaRoundTrip` | tools/compile_assets.js:40-41 | reading the literal back yields the original bytes; the strict lowercase reader `ParseBytea` accepts exactly what `Bytea` writes, and only the literal of those bytes reads back to them |
| `Hex.IndexHtmlLiteral` | tools/compile_assets.js:41 | the bytes of `<h1>hi</h1>` give the literal `\x3c68313e68693c2f68313e` |
| `Tree.Leaves` | tools/compile_assets.js:17-24 | the pre-order list of the regular files the walk meets, with their name paths; characterised by `Tree.LeavesAreFiles`, `Tree.LeavesCount` and `Tree.LeavesAppend` |
| `Tree.LeavesAppend` | tools/compile_assets.js:18-24 | the files of two listings in sequence are their files in sequence (pre-order follows listing order) |
| `Tree.LeavesCount` | tools/compile_assets.js:17-24 | the walk meets exactly as many assets as the tree has regular files; directories give none |
| `Tree.LeavesUnder` | tools/compile_assets.js:20 | every asset's name path extends the path of the directory being listed |
| `Tree.LeavesAreFiles` | tools/compile_assets.js:17-24 | an asset with a given path and content is met if and only if that path reaches a regular file with that content |
| `Tree.LeavesDistinct` | tools/compile_assets.js:17-27 | when sibling names are distinct, no two assets share a name path |
| `Tree.LeavesAvoid` | tools/compile_assets.js:20-27 | a character absent from every name of the tree is absent from every segment of every asset |
| `Records.HostRelative` | tools/compile_assets.js:27 | the path relative to the asset root: the names from the root joined by the host separator; which characters it holds is `Strings.JoinChars` |
| `Records.WebPathOf` | tools/compile_assets.js:27-33 | the web path is non-empty and starts with `/` |
| `Records.WebPath` | tools/compile_assets.js:27-34 | the reassignments produce `WebPathOf`, so the guard on line 34 never changes the value; the result starts with `/` |
| `Records.WebPathIsReplace` | tools/compile_assets.js:30-33 | the web path is `/` followed by the host-relative path with every separator replaced by `/` |
| `Records.WebPathHasNoSeparator` | tools/compile_assets.js:30 | when the separator is not `/`, the web path holds no separator character |
| `Records.WebPathKeeps` | tools/compile_assets.js:30 | every character other than the separator and `/` survives: it is in the web path exactly when some name holds it |
| `Records.WebPathOfNames` | tools/compile_assets.js:27-33 | when no name holds the separator, the web path is `"/" + names.join("/")` |
| `Records.WebPathInjective` | tools/compile_assets.js:27-33 | distinct name paths whose names hold neither the separator nor `/` give distinct web paths |
| `Records.ContentType` | tools/compile_assets.js:37 | the looked-up type when it is a non-empty string, exactly `application/octet-stream` otherwise, and never empty |
| `Records.Etag` | tools/compile_assets.js:44 | the lowercase hex of the MD5 digest of the bytes; its shape and inverse are `Records.EtagShape` |
| `Records.EtagShape` | tools/compile_assets.js:44 | the ETag is 32 lowercase hex digits and decodes to the 16-byte digest of the content |
| `Records.SameContentSameEtag` | tools/compile_assets.js:40-44 | the ETag and the literal depend on the bytes alone, not on where the file lies |
| `Records.Row` | tools/compile_assets.js:46 | the row template `('…', '…', '…', '…')` with no escaping; read back by `Records.RowRoundTrip` |
| `Records.RowShape` | tools/compile_assets.js:46 | a row is `('`, the four fields separated by `', '`, and `')` |
| `Records.InnerIsJoin` | tools/compile_assets.js:46 | the text between the outer parentheses is the fields and the `, ` between them joined by `'` |
| `Records.RowRoundTrip` | tools/compile_assets.js:46 | the row template reads back into its four fields when none holds a `'` |
| `Records.Record` | tools/compile_assets.js:27-46 | the row of one regular file from its web path, content type, ETag and literal; what it holds is `Records.RecordFields` |
| `Records.RecordFields` | tools/compile_assets.js:27-46 | when names and MIME types hold no `'`: the row of a file has that file's web path, content type and ETag, and a literal that decodes to the file's bytes, whose digest is the ETag |
| `Compiler.Rows` | tools/compile_assets.js:46 | one row per asset |
| `Compiler.RowsAt` | tools/compile_assets.js:46 | the `k`-th row is the record of the `k`-th asset, so rows keep the assets' order |
| `Compiler.AssetCompiler.constructor` | tools/compile_assets.js:12-15 | the build starts with the fixed header in `sql` and no rows |
| `Compiler.AssetCompiler.WalkDir` | tools/compile_assets.js:17-50 | the listing's loop appends to `values` exactly the rows of the listing's regular files, in pre-order; `sql` is unchanged |
| `Compiler.AssetCompiler.Visit` | tools/compile_assets.js:19-48 | one entry appends the rows of its own files: a directory's whole listing, or a regular file's single row; `sql` is unchanged |
| `Compiler.AssetCompiler.PackFile` | tools/compile_assets.js:26-46 | the web path, type, literal and ETag computed step by step make up exactly the file's record, which is appended to `values`; `sql` is unchanged |
| `Compiler.AssetCompiler.Finish` | tools/compile_assets.js:54-60 | with rows: `sql` gains the rows joined by `,\n` and `;`, and that text is written; without rows: nothing is written and `sql` is unchanged |
| `Compiler.CompileAssets` | tools/compile_assets.js:12-60 | the run writes `Script` of the pre-order rows, and writes nothing exactly when the tree has no regular file |
| `Compiler.DirRows` | tools/compile_assets.js:23-24 | a directory entry contributes the rows of its own listing, under its name |
| `Compiler.FileRows` | tools/compile_assets.js:27-46 | a file entry contributes one row, built from its web path, its content type, its ETag and its literal |
| `Compiler.LoopStep` | tools/compile_assets.js:19 | after one more entry, `values` holds the rows of the listing up to and including that entry |
| `Compiler.StepRows` | tools/compile_assets.js:19 | the rows of one more entry of a listing follow those of the entries before it |
| `Compiler.RowsAppend` | tools/compile_assets.js:46 | rows of concatenated asset lists are the concatenated rows |
| `Compiler.Script` | tools/compile_assets.js:54-60 | with rows, the header, the rows joined by `,\n` and `;`; with none, nothing; its layout is `Compiler.ScriptLayout` |
| `Compiler.ScriptLayout` | tools/compile_assets.js:12-14 | a written script starts with the header and ends with `;`; each row sits at its offset, and every row but the last is followed by `,\n` |
| `Compiler.ScriptRows` | tools/compile_assets.js:52-60 | nothing is written exactly when the tree has no regular file, and there are as many rows as regular files |
| `Compiler.WebPathsUnique` | tools/compile_assets.js:17-34 | in a tree with distinct sibling names and no separator or `/` in any name, the rows have pairwise distinct web paths |
| `Compiler.SingleFileScript` | tools/compile_assets.js:12-60 | a root with one file, whose name holds no separator, yields the header, the row `("/" + name, type, ETag, literal)` and `;` |
| `Compiler.SingleNameWebPath` | tools/compile_assets.js:33 | a separator-free name at the root has the web path `"/" + name` |

## Left out

- Filesystem calls (`readdirSync`, `statSync`, `readFileSync`, `writeFileSync`): the tree is a value and the script is returned. Their failures are not modelled; in the script any such failure aborts the run.
- Directory enumeration order is the host's: the model takes the listing order as given in `Dir.children` and at the root.
- Symbolic links and entries that are neither regular files nor directories are host-defined, so the tree has only files and directories.
- `path.relative` and `path.join` semantics (`.`, `..`, absolute paths, the `./public` prefix): the relative path is the list of names gathered during descent, joined by the host separator.
- The `mime-types` table is a parameter (`Host.lookup`). It receives the name path from the asset root rather than the host path string, and what it answers for a given extension is not modelled.
- MD5 (RFC 1321) is a parameter (`Host.md5`) whose results are 16 bytes. Only the hex rendering and the fact that the ETag depends on the content alone are verified.
- Console output, including the kilobyte figure `(stat.size / 1024).toFixed(2)`, is floating-point formatting and logging.
- SQL quoting: the code escapes no `'`, so no injection-safety property is stated. `Records.RecordFields` reads a row back only under the condition that names and types hold no `'`.
- The fixed `ASSET_DIR` and `OUTPUT_FILE` constants and the start-up log line: the root entries are a parameter and the output is the returned value.

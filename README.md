# dynamic-public-path-webpack-plugin, modelled in Dafny

The plugin runs once webpack has written its output ("after-emit"). It finds the
manifest chunk named by the `chunkName` option and takes the first `.js` file of that
chunk. It then replaces the first quoted occurrence of the build's
`output.publicPath` in that file with the `externalGlobal` expression, so the page can
set the public path at run time.

The model has four modules:

- `Wrappers` (wrappers.dfy): `Option`, where `None` plays JavaScript's `undefined`.
- `EcmaReplace` (ecma_replace.dfy): `String.prototype.replace` with a string pattern,
  following ECMA-262 (2022 edition) section 22.1.3.18. This covers StringIndexOf
  (section 6.1.4.1), GetSubstitution (section 22.1.3.18.1) for a pattern without
  captures, and the leftmost-only replacement.
- `Selection` (selection.dfy): `Array.prototype.find`, the chunk lookup, the `.js` file
  lookup, and the asset lookup up to `existsAt`. The regular expression `/.*\.js$/`
  has no `m` flag, so it matches exactly the names ending in `.js`.
- `PublicPathPlugin` (plugin.dfy): holds the options and the registration gate of
  `apply`. The class `DynamicPublicPathPlugin` has the `options` field, `Apply` and the
  after-emit handler `AfterEmit`. The handler is an imperative method over an abstract
  `FileSystem`, which holds a file map, per-path read and write failures, and a write
  log. A `Callback` counts how often the completion callback is invoked.

Behaviour of the code worth knowing:

- Only the first occurrence is replaced. `data.replace` is called with a string.
- There is no "missing public path" check. An undefined `publicPath` would be searched
  for as `"undefined"`, and the model takes the public path as a string.
- A missing chunk, or a missing asset entry, throws a TypeError (index.js:51, index.js:61).
  The handler does not report these errors, and the callback is never invoked. The model
  returns `Outcome.TypeError`, with no write and no callback.
- When no file ends in `.js`, the asset looked up is `assets["undefined"]`, as
  JavaScript's property-key conversion gives. `LocateWithoutJsFile` states that case.

## Model

| member | source | states |
|---|---|---|
| `PublicPathPlugin.DynamicPublicPathPlugin.constructor` | index.js:25-27 | the plugin stores the options it was given |
| `PublicPathPlugin.Truthy` | index.js:35 | JavaScript truthiness of an option: defined and not the empty string |
| `PublicPathPlugin.Registers` | index.js:35 | the condition of `apply`: both `externalGlobal` and `chunkName` are truthy |
| `PublicPathPlugin.DynamicPublicPathPlugin.Apply` | index.js:33-36 | the handler is appended to the compiler's after-emit list iff both options are truthy; otherwise nothing is registered |
| `Selection.Find` | index.js:47-53 | `Array.prototype.find` returns an element of the array that satisfies the predicate; it returns `undefined` iff no element does |
| `Selection.FindFirst` | index.js:47-53 | an element satisfying the predicate, with none before it, is the one returned |
| `Selection.FindIsFirst` | index.js:47-53 | the returned element sits at an index with no satisfying element before it |
| `Selection.FindChunk` | index.js:47-49 | the chunk returned has the configured name and is in the list; none is returned iff no chunk has that name |
| `Selection.FindChunkIsFirst` | index.js:47-49 | the first chunk with the name is the one chosen |
| `Selection.FindChunkNoneBefore` | index.js:47-49 | no chunk before the chosen one has the name |
| `Selection.EndsWithJs` | index.js:52 | `/.*\.js$/` without the `m` flag matches a name exactly when the name is some stem followed by `.js` |
| `Selection.FindJsFile` | index.js:51-53 | the file returned is one of the chunk's files and ends in `.js`; none is returned iff no file ends in `.js` |
| `Selection.FindJsFileIsFirst` | index.js:51-53 | the first file ending in `.js` is the one chosen |
| `Selection.FindJsFileNoneBefore` | index.js:51-53 | no file before the chosen one ends in `.js` |
| `Selection.LocateManifest` | index.js:47-61 | the handler throws at `chunk.files` iff no chunk has the name; a found path is the `existsAt` of an asset in the table |
| `Selection.LocateWithoutJsFile` | index.js:47-61 | take the first chunk with the name; if none of its files ends in `.js`, the asset looked up is `assets["undefined"]`: its `existsAt` is opened if present, and otherwise the handler throws |
| `Selection.LocateFirstJsOfFirstChunk` | index.js:47-61 | take the first chunk with the name and its first `.js` file: the path opened is that file's `existsAt`, or the handler throws when the file has no asset entry |
| `EcmaReplace.IndexOfFrom` | index.js:73 | StringIndexOf: the result is an occurrence at or after the start, with none between the start and it; none is returned iff no occurrence exists from the start |
| `EcmaReplace.IndexOf` | index.js:73 | the search finds something iff the pattern occurs; what it finds is the leftmost occurrence |
| `EcmaReplace.ReplaceFirst` | index.js:73 | `replace` with a string pattern returns the text unchanged when the pattern does not occur; otherwise it returns the prefix before the leftmost occurrence, the expanded replacement, then everything after the occurrence |
| `EcmaReplace.Substitute` | index.js:73 | GetSubstitution for a string pattern; `$1`..`$99` and `$<` stay literal, because a string pattern has no captures |
| `EcmaReplace.SubstituteVerbatim` | index.js:73 | a replacement without `$` is inserted exactly as given |
| `EcmaReplace.SubstituteEscapes` | index.js:73 | a replacement that starts with `$$` expands to one `$` followed by the expansion of the rest; likewise `$&` gives the matched text, `` $` `` the text before the match and `$'` the text after it |
| `EcmaReplace.ReplaceLeftmost` | index.js:73 | with a `$`-free replacement, the result is `s[..i] + rep + s[i+|pat|..]` for the leftmost occurrence `i`; prefix and suffix are kept |
| `EcmaReplace.ReplaceFirstLength` | index.js:73 | for a `$`-free replacement, the result length is `|s| - |pat| + |rep|` if the pattern occurs and `|s|` otherwise |
| `EcmaReplace.PrefixHasNoOccurrence` | index.js:73 | the text before the leftmost occurrence contains no occurrence of the (non-empty) pattern |
| `EcmaReplace.LaterOccurrencesKept` | index.js:73 | for a `$`-free replacement, every later occurrence that starts at or after the end of the replaced one is still in the result, shifted by `|rep| - |pat|` |
| `PublicPathPlugin.SearchPattern` | index.js:73 | the pattern is the public path between two double quotes |
| `PublicPathPlugin.RewriteReplacesQuotedPath` | index.js:73 | for a `$`-free `externalGlobal`, the first quoted public path is replaced by `externalGlobal`, with no quotes added |
| `PublicPathPlugin.Rewrite` | index.js:73 | the handler's rewrite of the file text; a text without the quoted public path is written back unchanged |
| `PublicPathPlugin.RewriteAfterQuoteFreePrefix` | index.js:73 | for a `$`-free `externalGlobal`, when no double quote precedes the quoted public path, `pre + "path" + post` becomes `pre + externalGlobal + post` |
| `PublicPathPlugin.RewriteExample` | index.js:73 | an example: `var p="/static/v1/";` becomes `var p=window.__CDN__;` |
| `PublicPathPlugin.FileSystem.Exists` | index.js:63 | `fs.exists` answers whether the path is in the file map |
| `PublicPathPlugin.FileSystem.ReadFile` | index.js:65-70 | the read succeeds iff the file exists and is readable, and returns its contents |
| `PublicPathPlugin.FileSystem.WriteFile` | index.js:76-84 | the write overwrites the whole file unless the path is unwritable, and logs the attempt |
| `PublicPathPlugin.Callback.Invoke` | index.js:68 | one more completion call |
| `PublicPathPlugin.DynamicPublicPathPlugin.AfterEmit` | index.js:36-90 | the outcome is a TypeError exactly when the selection throws; then nothing is written and no callback is made. Otherwise the callback runs exactly once. An existing, readable and writable file is always rewritten. Nothing is written when the file is missing or unreadable. After a successful read, exactly the rewritten text is written once, to the path that was read. Files change only on a successful write |

## Left out

- Asynchrony of `fs.exists`, `fs.readFile` and `fs.writeFile`: the callbacks run in sequence, so the model runs them as sequential calls on one abstract file system.
- The race between `fs.exists` and `fs.readFile`: a file deleted between the two calls is not modelled. The model's file map does not change between the calls.
- `path.resolve`: the asset's `existsAt` is used as the path unchanged. Resolving against the working directory is host I/O.
- `PublicPathPlugin.FileSystem.WriteFile`: a failed write leaves the file unchanged. A partial write by the host file system is not modelled.
- Webpack's `compiler.plugin('after-emit', …)` API and its objects: these are replaced by `Compiler.afterEmit` and the `Compilation`, `Chunk` and `Asset` records. Webpack's dispatch of registered handlers is not modelled.
- `_log` and `console.log` output (index.js:57, 67, 78-81, 87, 93-95, 99-101): logging only. `Outcome` says which of the messages at index.js:67, 78, 80 and 87 ends the run; `TypeError` prints none of them.
- Option values that are not strings or undefined (numbers, objects), and an undefined `options` object: these are outside the plugin's documented usage.
- Repeated runs over an already rewritten file: each run is one `ReplaceFirst`. A second run is a no-op when no quoted public path remains (`Rewrite`). Beyond that, no separate idempotence property is stated.
- Text encoding: Dafny's `char` is a Unicode scalar value, while JavaScript strings are UTF-16 code units. So the lengths in `ReplaceFirstLength` count scalar values, not JavaScript's `.length`, and lone surrogates cannot be represented. `readFile` and `writeFile` with `'utf8'` (index.js:65, 76) decode and re-encode the file. Invalid UTF-8 bytes come back as U+FFFD, so even a run without a match can change the bytes on disk. The model's file map holds decoded text and does not capture this.

# Pistachio templates and ShakePlatform bars, in Dafny

This project models two pieces of the html5-shake-demo client.

**Pistachio** (`client/js/libs/pistachio.js`) is a micro-template compiler. A
template is text with embedded symbols of the form `{tag#id.c1.c2[k=v]{expr}}`.
Compiling a template replaces each symbol with an HTML placeholder element. The
symbol's id selects that element, and it files the symbol in a table keyed by
that id. Alongside, it registers every data path (`#(path)`) and every
sub-view name (`> @name`) the expressions mention. The model covers:

- the scanner for the documented symbol grammar, and the parts taken from each symbol (tag name, id, class names, attributes, `isCustom`);
- the expression rewrite: `#(p)` becomes `data('p')`, and `> @x` becomes `embedChild(@x)`;
- the placeholder element and its serialisation;
- the symbol table: generated ids, the embedder's re-keying, and `addSymbol` / `appendChild` / `prependChild`;
- the two name registries;
- the helpers `getAt` (dotted-path lookup) and `createId` (a counter-based id generator).

`createId` draws from one counter shared by every call. The model passes that
counter in and returns the advanced value.

**ShakePlatform** (`client/js/platform.js`) keeps a row of bars. The
constructor creates ten empty bars. `addBar(data)` gives the data to the first
bar that has none, and appends a new bar when there is no data or no empty
bar. The left and right arrow keys append an empty bar. `removeBar` does
nothing.

Modules:

- `Wrappers`: `Option`.
- `Strings`: JavaScript `split`/`join` on one character, `\w`, `\s`, line terminators, decimal numerals.
- `PathLookup`: `getAt`.
- `Ids`: `createId`.
- `NameRegistry`: an object used as a set, listed by `Object.keys`.
- `SymbolSyntax`: the symbol scanner, and a `Print` of symbols that the scanner reads back.
- `SymbolParts`: lines 128-132 of pistachio.js.
- `Expressions`: lines 135-141.
- `Placeholder`: lines 175-178, as an element and as the source's string concatenation.
- `Compiler`: the Pistachio instance and its operations.
- `Platform`: ShakePlatform.

Where the comments in the source and its code differ, this model follows the code.

## Model

| member | source | states |
|---|---|---|
| PathLookup.GetAt | client/js/libs/pistachio.js:18-29 | A nullish `ref`, the empty path, a path starting with `.` and an array whose first key is empty all return `ref` unchanged |
| PathLookup.WalkAppend | client/js/libs/pistachio.js:25-27 | Walking non-empty keys and then more keys equals walking the first keys, then the rest from where they end |
| PathLookup.WalkStopsAtEmptyKey | client/js/libs/pistachio.js:25-27 | The walk ends at the first empty key: nothing after it is looked up |
| PathLookup.GetAtDottedConcat | client/js/libs/pistachio.js:20-28 | For a path `a` with no empty key, `getAt(ref, a + "." + b)` equals `getAt(getAt(ref, a), b)` |
| PathLookup.GetAtDoubleDot | client/js/libs/pistachio.js:20-28 | `getAt(ref, a + ".." + b)` equals `getAt(ref, a)`: a doubled dot ends the walk |
| PathLookup.GetAtOneKey | client/js/libs/pistachio.js:25-27 | A single non-empty key on a non-nullish value is one property lookup |
| PathLookup.GetAtTwoKeys | client/js/libs/pistachio.js:20-28 | `getAt(ref, "a.b")` is `ref[a][b]`, stopping at a nullish `ref` or a nullish `ref[a]` |
| PathLookup.GetAtKeysAsDotted | client/js/libs/pistachio.js:20-24 | An array of dot-free keys walks exactly as the same keys joined by dots |
| Strings.Split | client/js/libs/pistachio.js:128-129 | `split` on one character yields at least one field, and no field holds the separator |
| Strings.JoinSplit | client/js/libs/pistachio.js:175-177 | Joining the fields of a split gives the string back |
| Strings.SplitJoin | client/js/libs/pistachio.js:175-177 | Splitting a join of separator-free fields gives the fields back |
| Strings.NatToString | client/js/libs/pistachio.js:14 | `"" + counter` is a non-empty run of decimal digits |
| Strings.ParseNatToString | client/js/libs/pistachio.js:14 | The numeral of a counter reads back as that counter |
| Strings.NatToStringInjective | client/js/libs/pistachio.js:14 | Different counters have different numerals |
| Ids.CreateId | client/js/libs/pistachio.js:10-16 | The id is the prefix, then `el-`, then the counter in decimal, so it starts with the prefix and is longer than it. The counter advances by one and can be read back from the id |
| Ids.CreateIdUnique | client/js/libs/pistachio.js:10-16 | Ids made from different counters differ, whatever the prefixes |
| Ids.CreateIds | client/js/libs/pistachio.js:10-16 | Successive calls advance the counter once per call, and the i-th id carries counter + i |
| Ids.CreateIdsDistinct | client/js/libs/pistachio.js:10-16 | No two successive calls return the same id |
| NameRegistry.Add | client/js/libs/pistachio.js:203 | `registry[name] = true` keeps the keys distinct, adds exactly `name`, keeps earlier keys in place, and changes nothing when `name` is already there |
| NameRegistry.Register | client/js/libs/pistachio.js:198-206 | Registering a list keeps the keys distinct; a name is registered afterwards exactly when it was before or is in the list; earlier keys keep their place |
| NameRegistry.RegisterKnown | client/js/libs/pistachio.js:198-206 | Registering only known names changes nothing |
| NameRegistry.RegisterIdempotent | client/js/libs/pistachio.js:198-206 | Registering the same list twice is registering it once |
| NameRegistry.RegisterAppend | client/js/libs/pistachio.js:142-143 | Registering one list and then another is registering their concatenation |
| NameRegistry.RegisterAll | client/js/libs/pistachio.js:142-143 | Registering batch after batch keeps the keys distinct |
| NameRegistry.RegisterAllFlat | client/js/libs/pistachio.js:142-143 | Registering batch after batch is registering all their names, in order, as one list |
| NameRegistry.RegisterAllContents | client/js/libs/pistachio.js:198-206 | After a series of batches, a name is registered exactly when it was at the start or appears in some batch |
| NameRegistry.ListedOnce | client/js/libs/pistachio.js:218-224 | Starting empty, the keys listed are distinct and are exactly the names of all batches |
| SymbolSyntax.ScanHead | client/js/libs/pistachio.js:70-73 | The tag name, `#id`, `.classes` and `[attrs]` groups, taken in that priority, are consecutive pieces of the text; the tag is a word and the id group is `#` and a word |
| SymbolSyntax.ScanHeadGroups | client/js/libs/pistachio.js:70-77 | The classes group is the text of a list of `.`-prefixed words. The attribute group is empty or the text of a non-empty list of `[key=value]` attributes with a word key. Each group runs as far as it can: no word character after the tag or the id, no dot after the classes, no further complete attribute after the attributes |
| SymbolSyntax.ScanBody | client/js/libs/pistachio.js:82 | `{expr}` followed by white space and `}`: the matched text is exactly those pieces, the gap is white space and the expression holds no brace |
| SymbolSyntax.ScanSymbol | client/js/libs/pistachio.js:68-77 | A matched symbol's text is exactly its captured groups, and what follows is the rest of the input |
| SymbolSyntax.ScanSymbolWellFormed | client/js/libs/pistachio.js:68-77 | Whatever is matched is the capture of a well-formed written symbol, so the scanner and the printer agree in the scan-then-print direction too |
| SymbolSyntax.CaptureWellFormed | client/js/libs/pistachio.js:70-77 | A capture whose tag, id, classes, attributes and expression each have the grammar's shape is the capture of some well-formed written symbol |
| SymbolSyntax.TokenizeWellFormed | client/js/libs/pistachio.js:126 | Every symbol piece a template is cut into is the capture of a well-formed written symbol |
| SymbolSyntax.ScanPrint | client/js/libs/pistachio.js:68-77 | Scanning a written well-formed symbol gives back the groups it was written with and the text after it |
| SymbolSyntax.Tokenize | client/js/libs/pistachio.js:126 | The template is cut into literal text and symbols that together spell the template exactly. Scanning from the left, each symbol piece is the one the pattern matches at its position, and the scan resumes after it. No symbol starts at any position inside a text piece. Every id group is `#` and a word |
| SymbolSyntax.TokenizePlainText | client/js/libs/pistachio.js:126 | A template without `{` holds no symbol: it stays one piece of text |
| SymbolSyntax.TokenizeSymbol | client/js/libs/pistachio.js:126 | A template that is one written symbol is cut into exactly that symbol |
| SymbolParts.StripBrackets | client/js/libs/pistachio.js:130 | Removing `[` and `]` leaves no bracket and never lengthens the text |
| SymbolParts.NormalizeAttrs | client/js/libs/pistachio.js:130 | After `][` becomes a space and the other brackets go, no bracket is left |
| SymbolParts.JoinBracketsAttrs | client/js/libs/pistachio.js:130 | Replacing each `][` by a space turns `[k1=v1][k2=v2]...` into one bracket pair around the attributes joined by spaces |
| SymbolParts.NormalizeAttrsText | client/js/libs/pistachio.js:130 | Written attributes `[k1=v1][k2=v2]` become `k1=v1 k2=v2` |
| SymbolParts.ClassNamesOfText | client/js/libs/pistachio.js:129 | `classes.split('.').slice(1)` of `.c1.c2` gives back the class names |
| SymbolParts.IdOfWord | client/js/libs/pistachio.js:128 | `id.split('#')[1]` of `#w` is `w` |
| SymbolParts.ParseParts | client/js/libs/pistachio.js:128-132 | The tag is never empty and is the written tag when there is one; a symbol that is not custom has tag `span`, no id, no classes and no attributes |
| SymbolParts.PartsOfSymbol | client/js/libs/pistachio.js:128-132 | For a written symbol: the tag defaults to `span`, the id is the written id, the class names and attributes are the written ones, and `isCustom` holds exactly when tag, id, classes or attributes were written (decided before the default tag) |
| SymbolParts.ScannedParts | client/js/libs/pistachio.js:126-132 | The parts computed from any matched symbol are those of a well-formed written symbol whose capture it is: default tag, written classes, joined attributes, and `isCustom` exactly when something was written |
| Expressions.RewriteData | client/js/libs/pistachio.js:135-137 | No recorded data path holds `)` |
| Expressions.RewriteLit | client/js/libs/pistachio.js:135-137 | Text inside which no `#(` starts, and whose trailing `#` (if any) is not followed by `(`, is copied unchanged and records nothing |
| Expressions.RewriteRef | client/js/libs/pistachio.js:135-137 | `#(p)` becomes `data('p')` and `p` is recorded before the paths that follow |
| Expressions.RewriteDataChunks | client/js/libs/pistachio.js:135-137 | An expression built from literal text and `#(p)` references compiles to the text with each reference replaced by `data('p')`, recording the paths in source order. A literal may end in `#`, as in `a##(p)`, unless the text after it starts with `(` |
| Expressions.RewriteUnclosed | client/js/libs/pistachio.js:135-137 | Text without any `)` is copied unchanged and records no path, even where it holds an unclosed `#(` |
| Expressions.MatchSubview | client/js/libs/pistachio.js:138 | A match splits the expression into a lead (`>`, `>` and one white space, or `embedChild` and one white space), an `@` target of at least two characters up to the end of the line, and the rest |
| Expressions.MatchSubviewComplete | client/js/libs/pistachio.js:138 | Every expression of that form is matched, with exactly those three parts |
| Expressions.SubviewNameAsWritten | client/js/libs/pistachio.js:139 | The name recorded as written is the target without its `@` when the next character is not `.`, and without `@.` when it is |
| Expressions.SubviewName | client/js/libs/pistachio.js:139 | The corrected name is the name as written less the white space that ends it: what is removed is all white space, and the name does not end in white space |
| Expressions.Rewrite | client/js/libs/pistachio.js:135-141 | The data paths are those of the `#(...)` rewrite. At most one sub-view name is recorded, and one is recorded exactly when the data-rewritten expression has the sub-view form. Without that form the expression is the data-rewritten one |
| Expressions.RewriteIntended | client/js/libs/pistachio.js:138-141 | The corrected rewrite gives the same expression and data paths as the source, and records each sub-view name without its trailing white space |
| Expressions.RewriteSubviewAll | client/js/libs/pistachio.js:135-141 | For every expression whose data-rewritten text is a lead, an `@` target running to the end of the line, and the rest: the target is wrapped in `embedChild(...)`, the rest is kept, the data paths are those of the `#(...)` rewrite, and the one name recorded is the target's name as written (its trimmed form in the corrected rewrite) |
| Expressions.RewriteSubviewForm | client/js/libs/pistachio.js:138-141 | `> @name` followed by white space becomes `embedChild(@name ...)`, records no data path, and records `name` together with that white space |
| Expressions.SubviewNameAsWrittenKeepsSpaces | client/js/libs/pistachio.js:138-139 | For `> @name` followed by white space, the source records `name` plus that white space, which differs from `name`; the corrected rewrite records `name` |
| Expressions.SubviewNameKeepsTrailingSpace | client/js/libs/pistachio.js:57 | The documented `{{> @subView }}` records `subView ` as the source is written, which splits on spaces into `subView` and an empty name; the corrected rewrite records `subView` |
| Expressions.SubviewNameIsOneName | client/js/libs/pistachio.js:176 | With the corrected rewrite, a sub-view name that is a word is recorded as exactly one space-separated name |
| Placeholder.ClassList | client/js/libs/pistachio.js:175-177 | The class list is the class names followed by `prefix + "data"` exactly when there are data paths and by `prefix + "subview"` exactly when there are sub-view names |
| Placeholder.Build | client/js/libs/pistachio.js:175-178 | The element has the symbol's tag; `class` is present exactly when the class list is non-empty; `data-<prefix>paths` and `data-<prefix>subviews` are present exactly when there are paths and names, and hold them joined by spaces; the attribute text and `id` come last |
| Placeholder.SerializeBuild | client/js/libs/pistachio.js:175-178 | Serialising that element gives exactly the source's string `<tag class=.. data-..paths=.. data-..subviews=.. attrs id='..'></tag>` |
| Placeholder.DataPathsReadBack | client/js/libs/pistachio.js:175 | Splitting the paths attribute on spaces gives the data paths back, when no path holds a space |
| Placeholder.SubviewNamesReadBack | client/js/libs/pistachio.js:176-177 | Splitting the sub-views attribute gives the names back, and `prefix + "subview"` is one of the classes |
| Compiler.SymbolId | client/js/libs/pistachio.js:162 | The written id is kept and the counter is untouched; with no id, `createId(prefix)` supplies one and the counter advances |
| Compiler.CompileSymbol | client/js/libs/pistachio.js:126-178 | One symbol keeps the table valid. It is filed under exactly its id, with its tag name, its `isCustom` and production-mode `return` code, and nothing else in the table changes. The registries gain exactly the symbol's data paths and sub-view names, in order. The replacement HTML is the placeholder built from the parts. Where `Function` would throw on the production code, the model still compiles the symbol (see Left out) |
| Compiler.CompilePieces | client/js/libs/pistachio.js:126-179 | Compiling the pieces keeps the table valid and advances the counter once per symbol without a written id. The table becomes the old one with each symbol's record (tag name, id, `isCustom`, `return` code) filed under its assigned id; a later symbol with the same id replaces an earlier one. The HTML is each text piece as it stands and each symbol's placeholder under its assigned id. The registries gain the data paths and sub-view names of all symbols, in order |
| Compiler.New | client/js/libs/pistachio.js:84-94 | The constructor records the template and `options.prefix` (or `''`). The counter advances by the number of generated ids. The table holds exactly each symbol's compiled record under its assigned id, a later symbol replacing an earlier one with the same id, and it is valid. The HTML is the template with each symbol replaced by its placeholder. The registries hold exactly the data paths and sub-view names of all the symbols. A template whose production code `Function` rejects still compiles in the model (see Left out) |
| Compiler.RegistersPerSymbol | client/js/libs/pistachio.js:142-143 | The registries compiling builds (and so those of `New`) are what registering each symbol's paths, and each symbol's names, batch after batch, gives |
| Compiler.CompileOneSymbol | client/js/libs/pistachio.js:126-178 | For a template that is one written symbol: the table holds that symbol alone, under its id; the HTML is its placeholder; the registries hold exactly its paths and names |
| Compiler.PlainTemplate | client/js/libs/pistachio.js:126 | A template without `{` compiles to itself, files nothing and uses no id |
| Compiler.AssignedIdsDistinct | client/js/libs/pistachio.js:162-166 | When the written ids are distinct, all assigned ids are distinct and there is one per symbol |
| Compiler.OneEntryPerSymbol | client/js/libs/pistachio.js:162-166 | When the written ids are distinct, the table has exactly one entry per symbol |
| Compiler.ToString | client/js/libs/pistachio.js:98-100 | `toString` gives the template, not the HTML |
| Compiler.Embed | client/js/libs/pistachio.js:111-119 | Works on the symbol the closure captured, whatever the table holds. A custom symbol changes nothing. Any other symbol takes the child view's id and tag and keeps its code. Key `id` is deleted, and the symbol is filed under the child's id. Every other entry, the registries and the HTML are unchanged, and the updated symbol is returned for the next call |
| Compiler.EmbedCompiled | client/js/libs/pistachio.js:162-174 | Embedding into a symbol just compiled that is not custom replaces its id by the child view's, with the child's tag and the compiled code |
| Compiler.AddSymbol | client/js/libs/pistachio.js:183-188 | The child view is filed under its own id with its tag; every other entry and the rest of the instance are unchanged |
| Compiler.AddSymbolIdempotent | client/js/libs/pistachio.js:183-188 | Filing the same child twice is filing it once |
| Compiler.AppendChild | client/js/libs/pistachio.js:190-192 | The child view is filed under its own id with its tag, and nothing else changes |
| Compiler.PrependChild | client/js/libs/pistachio.js:194-196 | The child view is filed under its own id with its tag, and nothing else changes |
| Compiler.AppendPrependAgree | client/js/libs/pistachio.js:190-196 | Appending and prepending a child have the same effect on the table |
| Compiler.RegisterDataPaths | client/js/libs/pistachio.js:198-206 | A path is registered afterwards exactly when it was before or is in the list; earlier keys keep their place; only the data-path registry changes |
| Compiler.RegisterSubViewNames | client/js/libs/pistachio.js:208-216 | A name is registered afterwards exactly when it was before or is in the list; earlier keys keep their place; only the sub-view registry changes |
| Compiler.RegisterTwice | client/js/libs/pistachio.js:198-216 | Registering the same paths or names twice changes nothing more than registering them once |
| Compiler.GetDataPaths | client/js/libs/pistachio.js:218-220 | Each registered data path is listed exactly once, and nothing else is |
| Compiler.GetSubViewNames | client/js/libs/pistachio.js:222-224 | Each registered sub-view name is listed exactly once, and nothing else is |
| Platform.FirstEmpty | client/js/platform.js:46-48 | The slot found is empty and every bar before it has data; none is found exactly when every bar has data |
| Platform.AddBar | client/js/platform.js:42-58 | With data and some empty bar, the count is unchanged: only the lowest-index empty bar receives the data and its name. Without data, or with no empty bar, exactly one bar carrying `data` is appended after the unchanged bars |
| Platform.CreatePlaceholders | client/js/platform.js:33-40 | Ten empty bars are appended after the existing bars, which are unchanged |
| Platform.New | client/js/platform.js:10-19 | After construction there are exactly ten bars and none has data |
| Platform.KeyDown | client/js/platform.js:25-31 | Key codes 37 and 39 append one empty bar; any other key code changes nothing |
| Platform.RemoveBar | client/js/platform.js:60 | `removeBar` leaves the platform unchanged |
| Platform.ApplyKeeps | client/js/platform.js:25-60 | No single operation lowers the bar count or changes a bar that has data |
| Platform.RunKeeps | client/js/platform.js:25-60 | Over any series of operations, the bar count never decreases and a bar that has data keeps it |
| Platform.FirstDataFillsFirstSlot | client/js/platform.js:44-52 | Just after construction, the first data goes into the first bar and the other nine stay as they were |

## Left out

- CoffeeScript loading and compilation (pistachio.js lines 31-42 and 144-156): they call a foreign compiler. The model takes the production branch, where the code is `"return " + expression`. The source's default `Pistachio.MODE` is `'development'` (line 8).
- `Function('data', 'embedChild', js)` and its error wrap (lines 157-161): they evaluate code. The symbol records the `js` string only.
- Compiler.CompileSymbol: in the production branch the model takes, the code of a sub-view symbol is `return embedChild(@name)`. `@` is CoffeeScript, not JavaScript, so `Function` (line 158) throws and line 160 rethrows. The same holds for any expression that is not valid JavaScript, such as `#(a) #(b)`. The model compiles these symbols without an error. Its sub-view registries and HTML for them are what development mode produces; only the `js` field is the production string.
- Compiler.New: a template holding such a symbol makes the source's constructor throw; the model returns a compiled template for it, as just described.
- `render`, `dataGetter` and the `view.embedChild` call (lines 104-110, 113 and 163-165): they run inside a view layer that is not part of this model.
- `refreshChildren`, `embedSubViews`, `update` (lines 226-255) and the module export (lines 261-267): these are DOM queries and writes.
- The literal regex at line 82: the scanner follows the grammar documented at lines 68-77, not the regex engine. An attribute value holds no bracket and no line end. The attribute group is the whole bracket list. The regex's greedy `.*` inside brackets runs to the last `]` of the line that still lets the rest match. So a line holding two symbols with attributes, such as `{a[k=v]{#(x)}} {b[k=w]{#(y)}}`, is one match for the source. Its attributes are `[k=v]{#(x)}} {b[k=w]`, its expression is `#(y)`, and the path `x` is never registered. The model reads two symbols there.
- `Object.keys` order: JavaScript lists integer-like keys first and treats `__proto__` specially. The registries and the symbol table are modelled as insertion-ordered lists and maps of plain strings.
- Compiler.GetDataPaths: states distinctness and membership, not the listing order, because of the key order just described.
- Compiler.GetSubViewNames: states distinctness and membership, not the listing order, for the same reason.
- Compiler.Embed: the source mutates one shared symbol object, so a second call of the same embedder also changes the entry the first call filed under the earlier child's id, which still points at that object. Values do not alias here. The model returns the updated symbol for the next call, and an entry filed by an earlier call keeps its old value.
- Ids.CreateId: the counter is an unbounded natural. JavaScript counts exactly only up to 2^53.
- PathLookup.GetAt: property lookup covers own properties of objects only. Properties of primitives (such as a string's `length`) and inherited properties give `undefined` in the model. Keys are strings; a non-string array element is not modelled.
- The copy of an array path made by `slice` (line 23): values are immutable in the model, so the caller's array cannot change.
- Platform: the `KDView` base, `ShakeBar` construction, `addSubView`, `setKeyView`/`click`, and the `alert` on `ThereIsAWinner` are view plumbing in classes not shown. Falsy data values (`0`, `''`, `false`) are modelled as no data.
- `repositionBars` (platform.js lines 62-79): it computes CSS widths with floating-point division.

## Findings

| source | as written | input that shows it | evidently intended | confidence | as-written member | corrected member |
|---|---|---|---|---|---|---|
| client/js/libs/pistachio.js:138-139 | `(\@.+)` runs to the end of the line, so the recorded sub-view name keeps the white space that precedes the closing braces | `{{> @subView }}`, the form documented at line 57: the name recorded is `subView ` | the recorded name is `subView`, so that the space-separated `data-subviews` list splits back into the names | not executed | Expressions.SubviewNameKeepsTrailingSpace | Expressions.SubviewNameIsOneName |

`Expressions.Rewrite` records the name as the source writes it,
`Expressions.SubviewNameAsWritten`. The compiler uses it, so the table, the
registries and the HTML are the source's. `Expressions.SubviewNameKeepsTrailingSpace`
exhibits the documented input. `Expressions.RewriteIntended` is the correction: it
trims the name with `Expressions.SubviewName`. `Expressions.SubviewNameIsOneName`
proves that the corrected rewrite records exactly one space-separated name.
`Expressions.RewriteSubviewAll` states both rewrites for every expression of the
sub-view form.

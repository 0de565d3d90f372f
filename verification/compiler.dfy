/**
  A Pistachio instance (pistachio.js): the template, the prefix, the symbol
  table keyed by element id, the two name registries and the compiled HTML,
  together with the operations that change them. The global `createId`
  counter is threaded through as a `nat`.
 */
module Compiler {
  import opened Wrappers
  import opened Strings
  import opened SymbolSyntax
  import opened SymbolParts
  import opened Expressions
  import opened Placeholder
  import opened Ids
  import NameRegistry

  /** What the compiler reads from a child view: its id and, when it has `getTagName`, its tag */
  datatype ChildView = ChildView(id: string, tagName: Option<string>)

  /** An entry of the symbol table: a compiled symbol, or a child view recorded by `addSymbol` */
  datatype SymbolEntry =
    | Compiled(tagName: Option<string>, id: string, isCustom: bool, js: string)
    | Added(id: string, tagName: Option<string>)

  datatype Pistachio = Pistachio(
    template: string,
    prefix: string,
    symbols: map<string, SymbolEntry>,
    dataPaths: NameRegistry.Registry,
    subViewNames: NameRegistry.Registry,
    html: string)

  /** Every entry is filed under its own id, and the registries list no name twice */
  predicate Valid(p: Pistachio) {
    && (forall id :: id in p.symbols ==> p.symbols[id].id == id)
    && NameRegistry.Valid(p.dataPaths)
    && NameRegistry.Valid(p.subViewNames)
  }

  function SetOf(s: seq<string>): set<string> {
    set x | x in s
  }

  // ---------------------------------------------------------------------------
  // Compiling one symbol

  datatype Step = Step(p: Pistachio, counter: nat, html: string, id: string)

  /** `id || (id = createId(prefix))`: the written id, or a generated one */
  function SymbolId(written: string, prefix: string, counter: nat): (r: (string, nat))
    ensures written != "" ==> r == (written, counter)
    ensures written == "" ==> r == CreateId(prefix, counter)
  {
    if written != "" then (written, counter) else CreateId(prefix, counter)
  }

  /** `symbols[id] = entry` */
  function File(p: Pistachio, id: string, entry: SymbolEntry): (r: Pistachio)
    requires entry.id == id
    ensures Valid(p) ==> Valid(r)
    ensures r.symbols.Keys == p.symbols.Keys + {id} && r.symbols[id] == entry
    ensures forall k :: k in p.symbols && k != id ==> r.symbols[k] == p.symbols[k]
    ensures r == p.(symbols := r.symbols)
  {
    p.(symbols := p.symbols[id := entry])
  }

  /** The placeholder markup of one symbol */
  function PlaceholderHtml(parts: Parts, prefix: string, id: string, rw: Rewritten): (html: string)
    ensures html == SourceHtml(parts.tagName, prefix, parts.classNames, parts.attrs, id,
                               rw.dataPaths, rw.subViewNames)
  {
    SerializeBuild(parts.tagName, prefix, parts.classNames, parts.attrs, id, rw.dataPaths, rw.subViewNames);
    Serialize(Build(parts.tagName, prefix, parts.classNames, parts.attrs, id, rw.dataPaths, rw.subViewNames))
  }

  /**
    One call of the `template.replace` callback in production mode: parse the
    parts, rewrite the expression, register its names, pick the id, file the
    symbol under it and return the placeholder markup.
   */
  function CompileSymbol(p: Pistachio, counter: nat, sc: Scanned): (r: Step)
    ensures Valid(p) ==> Valid(r.p)
    ensures var parts := ParseParts(sc.capture);
      && (parts.id != "" ==> r.id == parts.id && r.counter == counter)
      && (parts.id == "" ==> r.id == CreateId(p.prefix, counter).0 && r.counter == counter + 1)
    ensures (r.id, r.counter) == SymbolId(ParseParts(sc.capture).id, p.prefix, counter)
    ensures r.p.symbols.Keys == p.symbols.Keys + {r.id}
    ensures forall k :: k in p.symbols && k != r.id ==> r.p.symbols[k] == p.symbols[k]
    ensures var parts := ParseParts(sc.capture);
      var rw := Rewrite(sc.capture.expression);
      r.p.symbols[r.id] == Compiled(Some(parts.tagName), r.id, parts.isCustom, "return " + rw.expression)
    ensures var rw := Rewrite(sc.capture.expression);
      && r.p.dataPaths == NameRegistry.Register(p.dataPaths, rw.dataPaths)
      && forall n :: n in r.p.dataPaths.names <==> n in p.dataPaths.names || n in rw.dataPaths
    ensures var rw := Rewrite(sc.capture.expression);
      && r.p.subViewNames == NameRegistry.Register(p.subViewNames, rw.subViewNames)
      && forall n :: n in r.p.subViewNames.names <==> n in p.subViewNames.names || n in rw.subViewNames
    ensures r.p.template == p.template && r.p.prefix == p.prefix && r.p.html == p.html
    ensures var parts := ParseParts(sc.capture);
      var rw := Rewrite(sc.capture.expression);
      r.html == SourceHtml(parts.tagName, p.prefix, parts.classNames, parts.attrs, r.id,
                           rw.dataPaths, rw.subViewNames)
  {
    var parts := ParseParts(sc.capture);
    var rw := Rewrite(sc.capture.expression);
    var registered := RegisterSubViewNames(RegisterDataPaths(p, rw.dataPaths), rw.subViewNames);
    var (id, counter') := SymbolId(parts.id, p.prefix, counter);
    var entry := Compiled(Some(parts.tagName), id, parts.isCustom, "return " + rw.expression);
    Step(File(registered, id, entry), counter', PlaceholderHtml(parts, p.prefix, id, rw), id)
  }

  // ---------------------------------------------------------------------------
  // Compiling a template

  /** The id each symbol among `pieces` receives, in order, when the counter starts at `counter` */
  function AssignedIds(prefix: string, counter: nat, pieces: seq<Piece>): seq<string>
    decreases |pieces|
  {
    if |pieces| == 0 then []
    else
      match pieces[0]
      case Text(_) => AssignedIds(prefix, counter, pieces[1..])
      case Sym(sc) =>
        var explicit := ParseParts(sc.capture).id;
        if explicit != "" then [explicit] + AssignedIds(prefix, counter, pieces[1..])
        else [CreateId(prefix, counter).0] + AssignedIds(prefix, counter + 1, pieces[1..])
  }

  /** The ids written into the template, in order */
  function ExplicitIds(pieces: seq<Piece>): seq<string>
    decreases |pieces|
  {
    if |pieces| == 0 then []
    else
      var rest := ExplicitIds(pieces[1..]);
      match pieces[0]
      case Text(_) => rest
      case Sym(sc) => if ParseParts(sc.capture).id != "" then [ParseParts(sc.capture).id] + rest else rest
  }

  function SymbolCount(pieces: seq<Piece>): nat
    decreases |pieces|
  {
    if |pieces| == 0 then 0 else (if pieces[0].Sym? then 1 else 0) + SymbolCount(pieces[1..])
  }

  function AutoCount(pieces: seq<Piece>): nat
    decreases |pieces|
  {
    if |pieces| == 0 then 0
    else
      (if pieces[0].Sym? && ParseParts(pieces[0].symbol.capture).id == "" then 1 else 0)
        + AutoCount(pieces[1..])
  }

  /**
    The HTML a template compiles to: literal text as it stands, each symbol
    replaced by its placeholder element under the id it is assigned
   */
  function HtmlOf(prefix: string, counter: nat, pieces: seq<Piece>): string
    decreases |pieces|
  {
    if |pieces| == 0 then ""
    else
      match pieces[0]
      case Text(t) => t + HtmlOf(prefix, counter, pieces[1..])
      case Sym(sc) =>
        var parts := ParseParts(sc.capture);
        var rw := Rewrite(sc.capture.expression);
        var (id, next) := SymbolId(parts.id, prefix, counter);
        SourceHtml(parts.tagName, prefix, parts.classNames, parts.attrs, id, rw.dataPaths, rw.subViewNames)
          + HtmlOf(prefix, next, pieces[1..])
  }

  /** The data paths of the template's symbols, in order */
  function AllPaths(pieces: seq<Piece>): seq<string>
    decreases |pieces|
  {
    if |pieces| == 0 then []
    else if pieces[0].Sym? then Rewrite(pieces[0].symbol.capture.expression).dataPaths + AllPaths(pieces[1..])
    else AllPaths(pieces[1..])
  }

  /** The sub-view names of the template's symbols, in order */
  function AllNames(pieces: seq<Piece>): seq<string>
    decreases |pieces|
  {
    if |pieces| == 0 then []
    else if pieces[0].Sym? then Rewrite(pieces[0].symbol.capture.expression).subViewNames + AllNames(pieces[1..])
    else AllNames(pieces[1..])
  }

  /**
    The table entries a template files: each symbol's compiled record under
    the id it is assigned. A later symbol with the same id overrides an
    earlier one, as the assignment `symbols[id] = ...` does.
   */
  function EntriesOf(prefix: string, counter: nat, pieces: seq<Piece>): map<string, SymbolEntry>
    decreases |pieces|
  {
    if |pieces| == 0 then map[]
    else
      match pieces[0]
      case Text(_) => EntriesOf(prefix, counter, pieces[1..])
      case Sym(sc) =>
        var parts := ParseParts(sc.capture);
        var rw := Rewrite(sc.capture.expression);
        var (id, next) := SymbolId(parts.id, prefix, counter);
        map[id := Compiled(Some(parts.tagName), id, parts.isCustom, "return " + rw.expression)]
          + EntriesOf(prefix, next, pieces[1..])
  }

  /** One batch of data paths per symbol, as each replacement registers them */
  function PathBatches(pieces: seq<Piece>): seq<seq<string>>
    decreases |pieces|
  {
    if |pieces| == 0 then []
    else if pieces[0].Sym? then [Rewrite(pieces[0].symbol.capture.expression).dataPaths] + PathBatches(pieces[1..])
    else PathBatches(pieces[1..])
  }

  /** One batch of sub-view names per symbol */
  function NameBatches(pieces: seq<Piece>): seq<seq<string>>
    decreases |pieces|
  {
    if |pieces| == 0 then []
    else if pieces[0].Sym? then [Rewrite(pieces[0].symbol.capture.expression).subViewNames] + NameBatches(pieces[1..])
    else NameBatches(pieces[1..])
  }

  lemma {:induction false} BatchesFlatten(pieces: seq<Piece>)
    ensures NameRegistry.Flatten(PathBatches(pieces)) == AllPaths(pieces)
    ensures NameRegistry.Flatten(NameBatches(pieces)) == AllNames(pieces)
    decreases |pieces|
  {
    if |pieces| > 0 {
      BatchesFlatten(pieces[1..]);
      if pieces[0].Sym? {
        var b := PathBatches(pieces);
        assert b[0] == Rewrite(pieces[0].symbol.capture.expression).dataPaths && b[1..] == PathBatches(pieces[1..]);
        var c := NameBatches(pieces);
        assert c[0] == Rewrite(pieces[0].symbol.capture.expression).subViewNames && c[1..] == NameBatches(pieces[1..]);
      }
    }
  }

  /**
    The registries that compiling builds, `Register(r, AllPaths(pieces))` and
    `Register(r, AllNames(pieces))`, are what registering each symbol's paths
    and names in turn gives, so the listing facts about batches apply.
   */
  lemma RegistersPerSymbol(r: NameRegistry.Registry, pieces: seq<Piece>)
    ensures NameRegistry.Register(r, AllPaths(pieces)) == NameRegistry.RegisterAll(r, PathBatches(pieces))
    ensures NameRegistry.Register(r, AllNames(pieces)) == NameRegistry.RegisterAll(r, NameBatches(pieces))
  {
    BatchesFlatten(pieces);
    NameRegistry.RegisterAllFlat(r, PathBatches(pieces));
    NameRegistry.RegisterAllFlat(r, NameBatches(pieces));
  }

  datatype Output = Output(p: Pistachio, counter: nat, html: string)

  /** `template.replace(pistachios, ...)`: literal text is copied, each symbol is compiled */
  function CompilePieces(p: Pistachio, counter: nat, pieces: seq<Piece>): (r: Output)
    ensures Valid(p) ==> Valid(r.p)
    ensures r.p.template == p.template && r.p.prefix == p.prefix && r.p.html == p.html
    ensures r.counter == counter + AutoCount(pieces)
    ensures r.p.symbols.Keys == p.symbols.Keys + SetOf(AssignedIds(p.prefix, counter, pieces))
    ensures r.html == HtmlOf(p.prefix, counter, pieces)
    ensures r.p.dataPaths == NameRegistry.Register(p.dataPaths, AllPaths(pieces))
    ensures r.p.subViewNames == NameRegistry.Register(p.subViewNames, AllNames(pieces))
    ensures r.p.symbols == p.symbols + EntriesOf(p.prefix, counter, pieces)
    decreases |pieces|
  {
    if |pieces| == 0 then Output(p, counter, "")
    else
      match pieces[0]
      case Text(t) =>
        var rest := CompilePieces(p, counter, pieces[1..]);
        assert AssignedIds(p.prefix, counter, pieces) == AssignedIds(p.prefix, counter, pieces[1..]);
        assert EntriesOf(p.prefix, counter, pieces) == EntriesOf(p.prefix, counter, pieces[1..]);
        Output(rest.p, rest.counter, t + rest.html)
      case Sym(sc) =>
        var step := CompileSymbol(p, counter, sc);
        var rest := CompilePieces(step.p, step.counter, pieces[1..]);
        AssignedIdsCons(p.prefix, counter, pieces, step.id, step.counter);
        KeysChain(p.symbols.Keys, step.p.symbols.Keys, rest.p.symbols.Keys, step.id,
          SetOf(AssignedIds(p.prefix, counter, pieces)), SetOf(AssignedIds(p.prefix, step.counter, pieces[1..])));
        var rw := Rewrite(sc.capture.expression);
        NameRegistry.RegisterAppend(p.dataPaths, rw.dataPaths, AllPaths(pieces[1..]));
        NameRegistry.RegisterAppend(p.subViewNames, rw.subViewNames, AllNames(pieces[1..]));
        FileThenMerge(p.symbols, step.id, step.p.symbols[step.id], EntriesOf(p.prefix, step.counter, pieces[1..]));
        Output(rest.p, rest.counter, step.html + rest.html)
  }

  /** Filing one entry and then merging more is merging that entry followed by the rest. */
  lemma FileThenMerge<K, V>(m: map<K, V>, k: K, v: V, rest: map<K, V>)
    ensures m[k := v] + rest == m + (map[k := v] + rest)
  {
  }

  lemma AssignedIdsCons(prefix: string, counter: nat, pieces: seq<Piece>, id: string, counter': nat)
    requires |pieces| > 0 && pieces[0].Sym?
    requires (id, counter') == SymbolId(ParseParts(pieces[0].symbol.capture).id, prefix, counter)
    ensures SetOf(AssignedIds(prefix, counter, pieces)) == {id} + SetOf(AssignedIds(prefix, counter', pieces[1..]))
    ensures AutoCount(pieces) == (counter' - counter) + AutoCount(pieces[1..])
  {
    var rest := AssignedIds(prefix, counter', pieces[1..]);
    assert AssignedIds(prefix, counter, pieces) == [id] + rest;
    SetOfCons(id, rest);
  }

  lemma KeysChain<T>(a: set<T>, b: set<T>, c: set<T>, id: T, s: set<T>, t: set<T>)
    requires b == a + {id} && c == b + t && s == {id} + t
    ensures c == a + s
  {
  }

  lemma SetOfCons(x: string, s: seq<string>)
    ensures SetOf([x] + s) == {x} + SetOf(s)
  {
  }

  /** `options.prefix || ''` */
  function PrefixOf(option: Option<string>): string {
    match option
    case None => ""
    case Some(s) => s
  }

  /** The constructor: empty table and registries, then `this.html = this.init()` */
  function New(template: string, prefixOption: Option<string>, counter: nat): (r: (Pistachio, nat))
    ensures Valid(r.0)
    ensures r.0.template == template && r.0.prefix == PrefixOf(prefixOption)
    ensures r.1 == counter + AutoCount(Tokenize(template))
    ensures r.0.symbols.Keys == SetOf(AssignedIds(r.0.prefix, counter, Tokenize(template)))
    ensures r.0.html == HtmlOf(r.0.prefix, counter, Tokenize(template))
    ensures r.0.dataPaths == NameRegistry.Register(NameRegistry.Empty, AllPaths(Tokenize(template)))
    ensures r.0.subViewNames == NameRegistry.Register(NameRegistry.Empty, AllNames(Tokenize(template)))
    ensures forall n :: n in r.0.dataPaths.names <==> n in AllPaths(Tokenize(template))
    ensures forall n :: n in r.0.subViewNames.names <==> n in AllNames(Tokenize(template))
    ensures r.0.symbols == EntriesOf(r.0.prefix, counter, Tokenize(template))
  {
    var prefix := PrefixOf(prefixOption);
    var p := Pistachio(template, prefix, map[], NameRegistry.Empty, NameRegistry.Empty, "");
    var out := CompilePieces(p, counter, Tokenize(template));
    EmptyMerge(EntriesOf(prefix, counter, Tokenize(template)));
    (out.p.(html := out.html), out.counter)
  }

  lemma EmptyMerge<K, V>(m: map<K, V>)
    ensures map[] + m == m
  {
  }

  /** The constructor on a template that is one symbol piece: one compile step */
  lemma NewOfOnePiece(template: string, sc: Scanned, prefixOption: Option<string>, counter: nat)
    requires Tokenize(template) == [Sym(sc)]
    ensures var p := Pistachio(template, PrefixOf(prefixOption), map[], NameRegistry.Empty, NameRegistry.Empty, "");
      var step := CompileSymbol(p, counter, sc);
      New(template, prefixOption, counter) == (step.p.(html := step.html), step.counter)
  {
    var p := Pistachio(template, PrefixOf(prefixOption), map[], NameRegistry.Empty, NameRegistry.Empty, "");
    CompileOnePiece(p, counter, Tokenize(template));
  }

  lemma CompileOnePiece(p: Pistachio, counter: nat, pieces: seq<Piece>)
    requires |pieces| == 1 && pieces[0].Sym?
    ensures var step := CompileSymbol(p, counter, pieces[0].symbol);
      CompilePieces(p, counter, pieces) == Output(step.p, step.counter, step.html)
  {
    var step := CompileSymbol(p, counter, pieces[0].symbol);
    CompileNothing(step.p, step.counter, pieces[1..]);
    assert step.html + "" == step.html;
  }

  lemma CompileNothing(p: Pistachio, counter: nat, pieces: seq<Piece>)
    requires |pieces| == 0
    ensures CompilePieces(p, counter, pieces) == Output(p, counter, "")
  {
  }

  /**
    Compiling a template that is one written symbol files that symbol, alone,
    under its id and makes the HTML its placeholder element.
   */
  lemma CompileOneSymbol(sym: Symbol, prefixOption: Option<string>, counter: nat)
    requires WellFormed(sym)
    ensures var r := New(Print(sym), prefixOption, counter);
      var prefix := PrefixOf(prefixOption);
      var parts := ParseParts(CaptureOf(sym));
      var rw := Rewrite(sym.expression);
      var ids := SymbolId(parts.id, prefix, counter);
      && r.1 == ids.1
      && r.0.symbols.Keys == {ids.0}
      && r.0.symbols[ids.0] == Compiled(Some(parts.tagName), ids.0, parts.isCustom, "return " + rw.expression)
      && r.0.html == SourceHtml(parts.tagName, prefix, parts.classNames, parts.attrs, ids.0,
                                rw.dataPaths, rw.subViewNames)
      && (forall n :: n in r.0.dataPaths.names <==> n in rw.dataPaths)
      && (forall n :: n in r.0.subViewNames.names <==> n in rw.subViewNames)
  {
    var prefix := PrefixOf(prefixOption);
    var p := Pistachio(Print(sym), prefix, map[], NameRegistry.Empty, NameRegistry.Empty, "");
    var sc := Scanned(CaptureOf(sym), "");
    TokenizeSymbol(sym);
    NewOfOnePiece(Print(sym), sc, prefixOption, counter);
    var step := CompileSymbol(p, counter, sc);
    assert step.p.symbols[step.id].id == step.id;
  }

  /** `toString` gives the template back, not the HTML */
  function ToString(p: Pistachio): (s: string)
    ensures s == p.template
  {
    p.template
  }

  /** A template without an opening brace holds no symbol: its HTML is the template itself. */
  lemma PlainTemplate(template: string, prefixOption: Option<string>, counter: nat)
    requires '{' !in template
    ensures New(template, prefixOption, counter).0.html == template
    ensures New(template, prefixOption, counter).0.symbols == map[]
    ensures New(template, prefixOption, counter).1 == counter
  {
    var p := Pistachio(template, PrefixOf(prefixOption), map[], NameRegistry.Empty, NameRegistry.Empty, "");
    if |template| > 0 {
      TokenizePlainText(template);
      assert CompilePieces(p, counter, [Text(template)]).html == template + "";
    }
  }

  // ---------------------------------------------------------------------------
  // Each symbol gets an entry of its own

  lemma WordHasNoCounter(w: string)
    requires IsWord(w)
    ensures CounterOf(w) == None
  {
    var n := DigitSuffixLength(w);
    if n < |w| {
      assert IsWordChar(w[|w| - n - 1]);
    }
  }

  lemma ExplicitIdIsWord(sc: Scanned)
    requires IsIdGroup(sc.capture.idGroup)
    ensures IsWord(ParseParts(sc.capture).id)
  {
    if sc.capture.idGroup.Some? {
      var g := sc.capture.idGroup.value;
      assert g == "#" + g[1..];
      IdOfWord(g[1..]);
    }
  }

  lemma IdGroupsOfRest(pieces: seq<Piece>)
    requires |pieces| > 0 && IdGroupsWellFormed(pieces)
    ensures IdGroupsWellFormed(pieces[1..])
    ensures pieces[0].Sym? ==> IsIdGroup(pieces[0].symbol.capture.idGroup)
  {
    assert pieces[0] in pieces;
    assert forall q :: q in pieces[1..] ==> q in pieces;
  }

  /** A written id carries no counter; a generated one carries a counter no smaller than the start */
  lemma {:induction false} AssignedIdsOrigin(prefix: string, counter: nat, pieces: seq<Piece>)
    requires IdGroupsWellFormed(pieces)
    ensures forall y :: y in AssignedIds(prefix, counter, pieces) ==>
      (y in ExplicitIds(pieces) && CounterOf(y) == None)
      || (CounterOf(y).Some? && CounterOf(y).value >= counter)
    decreases |pieces|
  {
    if |pieces| > 0 {
      IdGroupsOfRest(pieces);
      match pieces[0]
      case Text(_) =>
        AssignedIdsOrigin(prefix, counter, pieces[1..]);
      case Sym(sc) =>
        ExplicitIdIsWord(sc);
        var explicit := ParseParts(sc.capture).id;
        if explicit != "" {
          AssignedIdsOrigin(prefix, counter, pieces[1..]);
          WordHasNoCounter(explicit);
        } else {
          AssignedIdsOrigin(prefix, counter + 1, pieces[1..]);
        }
    }
  }

  /** When the written ids differ from each other, every symbol receives a different id. */
  lemma {:induction false} AssignedIdsDistinct(prefix: string, counter: nat, pieces: seq<Piece>)
    requires IdGroupsWellFormed(pieces)
    requires NameRegistry.Distinct(ExplicitIds(pieces))
    ensures NameRegistry.Distinct(AssignedIds(prefix, counter, pieces))
    ensures |AssignedIds(prefix, counter, pieces)| == SymbolCount(pieces)
    decreases |pieces|
  {
    if |pieces| > 0 {
      IdGroupsOfRest(pieces);
      var rest := pieces[1..];
      match pieces[0]
      case Text(_) =>
        AssignedIdsDistinct(prefix, counter, rest);
      case Sym(sc) =>
        ExplicitIdIsWord(sc);
        var explicit := ParseParts(sc.capture).id;
        if explicit != "" {
          assert ExplicitIds(pieces) == [explicit] + ExplicitIds(rest);
          UnCons(explicit, ExplicitIds(rest));
          AssignedIdsDistinct(prefix, counter, rest);
          WrittenHead(prefix, counter, explicit, rest);
          assert AssignedIds(prefix, counter, pieces) == [explicit] + AssignedIds(prefix, counter, rest);
        } else {
          assert ExplicitIds(pieces) == ExplicitIds(rest);
          AssignedIdsDistinct(prefix, counter + 1, rest);
          GeneratedHead(prefix, counter, rest);
          assert AssignedIds(prefix, counter, pieces) ==
            [CreateId(prefix, counter).0] + AssignedIds(prefix, counter + 1, rest);
        }
    }
  }

  /** A written id that the rest of the template does not repeat is not assigned again. */
  lemma WrittenHead(prefix: string, counter: nat, explicit: string, rest: seq<Piece>)
    requires IdGroupsWellFormed(rest) && IsWord(explicit) && explicit !in ExplicitIds(rest)
    requires NameRegistry.Distinct(AssignedIds(prefix, counter, rest))
    ensures NameRegistry.Distinct([explicit] + AssignedIds(prefix, counter, rest))
  {
    AssignedIdsOrigin(prefix, counter, rest);
    WordHasNoCounter(explicit);
    ConsDistinct(explicit, AssignedIds(prefix, counter, rest));
  }

  /** A generated id is not assigned again later on. */
  lemma GeneratedHead(prefix: string, counter: nat, rest: seq<Piece>)
    requires IdGroupsWellFormed(rest)
    requires NameRegistry.Distinct(AssignedIds(prefix, counter + 1, rest))
    ensures NameRegistry.Distinct([CreateId(prefix, counter).0] + AssignedIds(prefix, counter + 1, rest))
  {
    AssignedIdsOrigin(prefix, counter + 1, rest);
    ConsDistinct(CreateId(prefix, counter).0, AssignedIds(prefix, counter + 1, rest));
  }

  lemma UnCons(x: string, s: seq<string>)
    requires NameRegistry.Distinct([x] + s)
    ensures NameRegistry.Distinct(s) && x !in s
  {
    forall i, j | 0 <= i < j < |s| ensures s[i] != s[j] {
      assert ([x] + s)[i + 1] == s[i] && ([x] + s)[j + 1] == s[j];
    }
    forall i | 0 <= i < |s| ensures s[i] != x {
      assert ([x] + s)[i + 1] == s[i] && ([x] + s)[0] == x;
    }
  }

  lemma ConsDistinct(x: string, s: seq<string>)
    requires NameRegistry.Distinct(s) && x !in s
    ensures NameRegistry.Distinct([x] + s)
  {
    forall i, j | 0 <= i < j < |[x] + s| ensures ([x] + s)[i] != ([x] + s)[j] {
      if i == 0 {
        assert ([x] + s)[j] == s[j - 1];
      } else {
        assert ([x] + s)[i] == s[i - 1] && ([x] + s)[j] == s[j - 1];
      }
    }
  }

  lemma {:induction false} DistinctSetSize(s: seq<string>)
    requires NameRegistry.Distinct(s)
    ensures |SetOf(s)| == |s|
    decreases |s|
  {
    if |s| > 0 {
      assert NameRegistry.Distinct(s[1..]) by {
        forall i, j | 0 <= i < j < |s[1..]| ensures s[1..][i] != s[1..][j] {
          assert s[1..][i] == s[i + 1] && s[1..][j] == s[j + 1];
        }
      }
      DistinctSetSize(s[1..]);
      assert s[0] !in s[1..] by {
        forall i | 0 <= i < |s[1..]| ensures s[1..][i] != s[0] {
          assert s[1..][i] == s[i + 1];
        }
      }
      assert SetOf(s) == {s[0]} + SetOf(s[1..]);
    }
  }

  /**
    When no id is written twice, the symbol table of a new instance holds one
    entry per symbol of the template.
   */
  lemma OneEntryPerSymbol(template: string, prefixOption: Option<string>, counter: nat)
    ensures NameRegistry.Distinct(ExplicitIds(Tokenize(template))) ==>
      |New(template, prefixOption, counter).0.symbols| == SymbolCount(Tokenize(template))
  {
    var pieces := Tokenize(template);
    if NameRegistry.Distinct(ExplicitIds(pieces)) {
      var prefix := PrefixOf(prefixOption);
      AssignedIdsDistinct(prefix, counter, pieces);
      DistinctSetSize(AssignedIds(prefix, counter, pieces));
      var m := New(template, prefixOption, counter).0.symbols;
      assert |m| == |m.Keys|;
    }
  }

  // ---------------------------------------------------------------------------
  // Operations on a compiled instance

  /** What an embedder call leaves: the instance, and the symbol object the closure holds */
  datatype Embedded = Embedded(p: Pistachio, symbol: SymbolEntry)

  /**
    The function `getEmbedderFn(pistachio, view, id, symbol)` returns, applied
    to a child view. The closure holds the id and the symbol object captured
    when the symbol was compiled. A custom symbol changes nothing. Any other
    symbol object takes the child view's id and tag, the key `id` is deleted,
    and the object is filed under the child's id. The updated object is
    returned so that a later call of the same embedder can be given it.
   */
  function Embed(p: Pistachio, id: string, symbol: SymbolEntry, child: ChildView): (r: Embedded)
    requires symbol.Compiled?
    ensures Valid(p) ==> Valid(r.p)
    ensures r.p.template == p.template && r.p.prefix == p.prefix && r.p.html == p.html
    ensures r.p.dataPaths == p.dataPaths && r.p.subViewNames == p.subViewNames
    ensures symbol.isCustom ==> r == Embedded(p, symbol)
    ensures !symbol.isCustom ==>
      && r.symbol == Compiled(child.tagName, child.id, false, symbol.js)
      && r.p.symbols.Keys == p.symbols.Keys - {id} + {child.id}
      && r.p.symbols[child.id] == r.symbol
      && forall k :: k in p.symbols && k != id && k != child.id ==> r.p.symbols[k] == p.symbols[k]
  {
    if symbol.isCustom then Embedded(p, symbol)
    else
      var moved := symbol.(id := child.id, tagName := child.tagName);
      Embedded(p.(symbols := (p.symbols - {id})[child.id := moved]), moved)
  }

  /**
    Embedding into the symbol just compiled: a symbol that is not custom
    leaves its generated or written id for the child view's.
   */
  lemma EmbedCompiled(p: Pistachio, counter: nat, sc: Scanned, child: ChildView)
    requires !ParseParts(sc.capture).isCustom
    ensures var step := CompileSymbol(p, counter, sc);
      var r := Embed(step.p, step.id, step.p.symbols[step.id], child);
      && r.p.symbols.Keys == p.symbols.Keys - {step.id} + {child.id}
      && r.p.symbols[child.id] ==
           Compiled(child.tagName, child.id, false, "return " + Rewrite(sc.capture.expression).expression)
  {
    var step := CompileSymbol(p, counter, sc);
    assert step.p.symbols.Keys - {step.id} + {child.id} == p.symbols.Keys - {step.id} + {child.id};
  }

  /** `addSymbol(childView)`: the child view is filed under its own id */
  function AddSymbol(p: Pistachio, child: ChildView): (r: Pistachio)
    ensures Valid(p) ==> Valid(r)
    ensures r.symbols.Keys == p.symbols.Keys + {child.id}
    ensures r.symbols[child.id] == Added(child.id, child.tagName)
    ensures forall k :: k in p.symbols && k != child.id ==> r.symbols[k] == p.symbols[k]
    ensures r.template == p.template && r.dataPaths == p.dataPaths && r.subViewNames == p.subViewNames
  {
    p.(symbols := p.symbols[child.id := Added(child.id, child.tagName)])
  }

  /** `appendChild(childView)`: files the child exactly as `addSymbol` does */
  function AppendChild(p: Pistachio, child: ChildView): (r: Pistachio)
    ensures Valid(p) ==> Valid(r)
    ensures r.symbols.Keys == p.symbols.Keys + {child.id}
    ensures r.symbols[child.id] == Added(child.id, child.tagName)
    ensures forall k :: k in p.symbols && k != child.id ==> r.symbols[k] == p.symbols[k]
    ensures r.template == p.template && r.dataPaths == p.dataPaths && r.subViewNames == p.subViewNames
  {
    AddSymbol(p, child)
  }

  /** `prependChild(childView)`: files the child exactly as `addSymbol` does */
  function PrependChild(p: Pistachio, child: ChildView): (r: Pistachio)
    ensures Valid(p) ==> Valid(r)
    ensures r.symbols.Keys == p.symbols.Keys + {child.id}
    ensures r.symbols[child.id] == Added(child.id, child.tagName)
    ensures forall k :: k in p.symbols && k != child.id ==> r.symbols[k] == p.symbols[k]
    ensures r.template == p.template && r.dataPaths == p.dataPaths && r.subViewNames == p.subViewNames
  {
    AddSymbol(p, child)
  }

  /** Appending and prepending record a child identically: the table keeps no order. */
  lemma AppendPrependAgree(p: Pistachio, child: ChildView)
    ensures AppendChild(p, child) == PrependChild(p, child)
  {
  }

  /** Filing the same child view twice leaves the table as filing it once. */
  lemma AddSymbolIdempotent(p: Pistachio, child: ChildView)
    ensures AddSymbol(AddSymbol(p, child), child) == AddSymbol(p, child)
  {
    assert AddSymbol(AddSymbol(p, child), child).symbols == AddSymbol(p, child).symbols;
  }

  /** `registerDataPaths(paths)`: each path becomes a key of the set */
  function RegisterDataPaths(p: Pistachio, paths: seq<string>): (r: Pistachio)
    ensures Valid(p) ==> Valid(r)
    ensures forall n :: n in r.dataPaths.names <==> n in p.dataPaths.names || n in paths
    ensures p.dataPaths.names <= r.dataPaths.names
    ensures r == p.(dataPaths := r.dataPaths)
  {
    p.(dataPaths := NameRegistry.Register(p.dataPaths, paths))
  }

  /** `registerSubViewNames(names)` */
  function RegisterSubViewNames(p: Pistachio, names: seq<string>): (r: Pistachio)
    ensures Valid(p) ==> Valid(r)
    ensures forall n :: n in r.subViewNames.names <==> n in p.subViewNames.names || n in names
    ensures p.subViewNames.names <= r.subViewNames.names
    ensures r == p.(subViewNames := r.subViewNames)
  {
    p.(subViewNames := NameRegistry.Register(p.subViewNames, names))
  }

  /** Registering the same names twice changes nothing. */
  lemma RegisterTwice(p: Pistachio, paths: seq<string>, names: seq<string>)
    ensures RegisterDataPaths(RegisterDataPaths(p, paths), paths) == RegisterDataPaths(p, paths)
    ensures RegisterSubViewNames(RegisterSubViewNames(p, names), names) == RegisterSubViewNames(p, names)
  {
    NameRegistry.RegisterIdempotent(p.dataPaths, paths);
    NameRegistry.RegisterIdempotent(p.subViewNames, names);
  }

  /** `getDataPaths()`: every registered path, once */
  function GetDataPaths(p: Pistachio): (r: seq<string>)
    requires Valid(p)
    ensures NameRegistry.Distinct(r)
    ensures forall n :: n in r <==> n in p.dataPaths.names
  {
    p.dataPaths.names
  }

  /** `getSubViewNames()`: every registered sub-view name, once */
  function GetSubViewNames(p: Pistachio): (r: seq<string>)
    requires Valid(p)
    ensures NameRegistry.Distinct(r)
    ensures forall n :: n in r <==> n in p.subViewNames.names
  {
    p.subViewNames.names
  }
}

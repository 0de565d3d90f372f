/**
  The grammar of a pistachio symbol, `{tag#id.c1.c2[k=v]{expression}}`:
  a tag name, an optional `#`-prefixed id, `.`-prefixed class names,
  square-bracketed `key=value` attributes, then the expression in its own
  braces, with optional white space before the closing brace.

  `ScanSymbol` reads one symbol at the front of a string and yields the five
  groups the compiler works on; `Tokenize` cuts a template into literal text
  and symbols, the way `template.replace(pattern, ...)` visits matches from
  left to right.

  Texts are built right-nested with an explicit remainder (`...Then(x, rest)`)
  so that each scanning step peels off one part.
 */
module SymbolSyntax {
  import opened Wrappers
  import opened Strings

  /** The five groups a symbol captures */
  datatype Capture = Capture(
    tagName: string,          // `\w*`; "" when the symbol names no tag
    idGroup: Option<string>,  // `#\w*`, including its '#'
    classes: string,          // `(\.\w*)*`, possibly ""
    attrs: Option<string>,    // all bracketed attributes, `[k=v][k2=v2]`
    expression: string)       // the text between the inner braces

  /** A matched symbol: its groups and the white space before its last brace */
  datatype Scanned = Scanned(capture: Capture, gap: string)

  /** A symbol found at the front of a string, and the text after it */
  datatype Match = Match(symbol: Scanned, rest: string)

  function IdText(idGroup: Option<string>): string {
    match idGroup
    case None => ""
    case Some(g) => g
  }

  function AttrsGroupText(attrs: Option<string>): string {
    match attrs
    case None => ""
    case Some(a) => a
  }

  /** The closing part of a symbol, `{expression}gap}`, followed by `rest` */
  function BodyThen(expression: string, gap: string, rest: string): string {
    "{" + (expression + ("}" + (gap + ("}" + rest))))
  }

  /** The source text of a matched symbol, followed by `rest` */
  function SymbolTextThen(sc: Scanned, rest: string): string {
    var c := sc.capture;
    "{" + (c.tagName + (IdText(c.idGroup) + (c.classes + (AttrsGroupText(c.attrs)
      + BodyThen(c.expression, sc.gap, rest)))))
  }

  /** The source text a symbol was matched from */
  function SymbolText(sc: Scanned): string {
    SymbolTextThen(sc, "")
  }

  lemma SymbolTextAppend(sc: Scanned, rest: string)
    ensures SymbolText(sc) + rest == SymbolTextThen(sc, rest)
  {
    var c := sc.capture;
    var b := BodyThen(c.expression, sc.gap, "");
    assert b + rest == BodyThen(c.expression, sc.gap, rest);
    var a := AttrsGroupText(c.attrs);
    assert (a + b) + rest == a + (b + rest);
    var cl := c.classes;
    assert (cl + (a + b)) + rest == cl + ((a + b) + rest);
    var i := IdText(c.idGroup);
    assert (i + (cl + (a + b))) + rest == i + ((cl + (a + b)) + rest);
    var t := c.tagName;
    assert (t + (i + (cl + (a + b)))) + rest == t + ((i + (cl + (a + b))) + rest);
  }

  /** Attribute values may hold anything but square brackets and line ends. */
  predicate IsValueChar(c: char) {
    c != '[' && c != ']' && !IsLineTerminator(c)
  }

  /** Expressions hold no braces. */
  predicate IsExpressionChar(c: char) {
    c != '{' && c != '}'
  }

  function WordLength(s: string): (n: nat)
    ensures n <= |s| && IsWord(s[..n]) && (n < |s| ==> !IsWordChar(s[n]))
    decreases |s|
  {
    if |s| == 0 || !IsWordChar(s[0]) then 0
    else
      var n := 1 + WordLength(s[1..]);
      assert s[..n] == [s[0]] + s[1..][..n - 1];
      n
  }

  function SpacesLength(s: string): (n: nat)
    ensures n <= |s| && IsSpaces(s[..n]) && (n < |s| ==> !IsSpace(s[n]))
    decreases |s|
  {
    if |s| == 0 || !IsSpace(s[0]) then 0
    else
      var n := 1 + SpacesLength(s[1..]);
      assert s[..n] == [s[0]] + s[1..][..n - 1];
      n
  }

  function ValueLength(s: string): (n: nat)
    ensures n <= |s|
    decreases |s|
  {
    if |s| == 0 || !IsValueChar(s[0]) then 0 else 1 + ValueLength(s[1..])
  }

  lemma {:induction false} ValueLengthChars(s: string)
    ensures forall i :: 0 <= i < ValueLength(s) ==> IsValueChar(s[i])
    decreases |s|
  {
    if |s| > 0 && IsValueChar(s[0]) {
      ValueLengthChars(s[1..]);
      assert forall i :: 1 <= i < ValueLength(s) ==> s[i] == s[1..][i - 1];
    }
  }

  function ExpressionLength(s: string): (n: nat)
    ensures n <= |s| && (forall i :: 0 <= i < n ==> IsExpressionChar(s[i]))
    decreases |s|
  {
    if |s| == 0 || !IsExpressionChar(s[0]) then 0 else 1 + ExpressionLength(s[1..])
  }

  /** `(\.\w*)*`: the class names, each with its leading dot */
  function ClassesLength(s: string): (n: nat)
    ensures n <= |s|
    decreases |s|
  {
    if |s| == 0 || s[0] != '.' then 0
    else
      var w := WordLength(s[1..]);
      1 + w + ClassesLength(s[1 + w..])
  }

  /** The class names stop before a character that is not a dot. */
  lemma {:induction false} ClassesLengthStops(s: string)
    ensures ClassesLength(s) < |s| ==> s[ClassesLength(s)] != '.'
    decreases |s|
  {
    if |s| > 0 && s[0] == '.' {
      var w := WordLength(s[1..]);
      var m := ClassesLength(s[1 + w..]);
      ClassesLengthStops(s[1 + w..]);
      assert ClassesLength(s) == 1 + w + m;
      assert m < |s| - (1 + w) ==> s[1 + w..][m] == s[1 + w + m];
    }
  }

  /** One attribute `[key=value]` at the front, or 0 */
  function AttrLength(s: string): (n: nat)
    ensures n <= |s|
  {
    if |s| == 0 || s[0] != '[' then 0
    else
      var k := WordLength(s[1..]);
      if k == 0 || 1 + k >= |s| || s[1 + k] != '=' then 0
      else
        var v := ValueLength(s[2 + k..]);
        if 2 + k + v >= |s| || s[2 + k + v] != ']' then 0 else 3 + k + v
  }

  function AttrsLength(s: string): (n: nat)
    ensures n <= |s|
    decreases |s|
  {
    var a := AttrLength(s);
    if a == 0 then 0 else a + AttrsLength(s[a..])
  }

  /** No further attribute follows the ones `AttrsLength` ran over. */
  lemma {:induction false} AttrsLengthMaximal(s: string)
    ensures AttrLength(s[AttrsLength(s)..]) == 0
    decreases |s|
  {
    var a := AttrLength(s);
    if a == 0 {
      assert s[0..] == s;
    } else {
      var m := AttrsLength(s[a..]);
      assert AttrsLength(s) == a + m;
      AttrsLengthMaximal(s[a..]);
      NoAttrAfter(s, a, m, AttrsLength(s));
    }
  }

  lemma NoAttrAfter(s: string, a: nat, m: nat, n: nat)
    requires a <= |s| && m <= |s| - a && n == a + m
    requires AttrLength(s[a..][m..]) == 0
    ensures AttrLength(s[n..]) == 0
  {
    DropDrop(s, a, m);
  }

  /** Cut `s` after its first `n` characters. */
  function CutAt(s: string, n: nat): (r: (string, string))
    requires n <= |s|
    ensures r.0 + r.1 == s && |r.0| == n
  {
    (s[..n], s[n..])
  }

  /** `#\w*` */
  predicate IsIdGroup(idGroup: Option<string>) {
    idGroup.Some? ==> |idGroup.value| >= 1 && idGroup.value[0] == '#' && IsWord(idGroup.value[1..])
  }

  /** The optional `#id` after the tag name */
  function ScanId(s: string): (r: (Option<string>, string))
    ensures IdText(r.0) + r.1 == s
    ensures IsIdGroup(r.0)
  {
    if |s| == 0 || s[0] != '#' then (None, s)
    else
      var (w, rest) := CutAt(s[1..], WordLength(s[1..]));
      BraceFront(s, "#");
      IdFront(w, rest);
      (Some("#" + w), rest)
  }

  /** An id group stops before a character that is not a word character. */
  lemma ScanIdStops(s: string)
    ensures var r := ScanId(s); r.0.Some? && |r.1| > 0 ==> !IsWordChar(r.1[0])
  {
    if |s| > 0 && s[0] == '#' {
      var n := WordLength(s[1..]);
      var (w, rest) := CutAt(s[1..], n);
      CutFront(w, rest, s[1..], n);
      assert ScanId(s).1 == rest;
    }
  }

  /** `{expression}gap}` at the front of `s`, if it is there */
  function ScanBody(s: string): (r: Option<(string, string, string)>)
    ensures r.Some? ==> s == BodyThen(r.value.0, r.value.1, r.value.2)
    ensures r.Some? ==> IsSpaces(r.value.1)
    ensures r.Some? ==> forall i :: 0 <= i < |r.value.0| ==> IsExpressionChar(r.value.0[i])
  {
    if |s| == 0 || s[0] != '{' then None
    else
      var (expression, s1) := CutAt(s[1..], ExpressionLength(s[1..]));
      if |s1| == 0 || s1[0] != '}' then None
      else
        var (gap, s2) := CutAt(s1[1..], SpacesLength(s1[1..]));
        if |s2| == 0 || s2[0] != '}' then None
        else
          BraceFront(s, "{");
          BraceFront(s1, "}");
          BraceFront(s2, "}");
          Some((expression, gap, s2[1..]))
  }

  /** A string that starts with the one character of `b` is `b` and the rest */
  lemma BraceFront(s: string, b: string)
    requires |b| == 1 && |s| > 0 && s[0] == b[0]
    ensures s == b + s[1..]
  {
    assert s == [s[0]] + s[1..];
  }

  lemma IdFront(w: string, rest: string)
    ensures "#" + w + rest == "#" + (w + rest)
    ensures ("#" + w)[0] == '#' && ("#" + w)[1..] == w
  {
  }

  lemma OpeningBrace(s: string)
    requires |s| > 0 && s[0] == '{'
    ensures s == "{" + s[1..]
  {
    BraceFront(s, "{");
  }

  lemma AfterOpeningBrace(s: string, t: string)
    requires s == "{" + t
    ensures |s| > 0 && s[0] == '{' && s[1..] == t
  {
  }

  /** A class group is the text of a list of class names, each a word. */
  ghost predicate IsClassGroup(classes: string) {
    exists names :: (forall i :: 0 <= i < |names| ==> IsWord(names[i])) && ClassText(names) == classes
  }

  /** An attribute group is the text of a non-empty list of well-formed attributes. */
  ghost predicate IsAttrsGroup(attrs: Option<string>) {
    attrs.Some? ==>
      exists list :: |list| > 0 && (forall i :: 0 <= i < |list| ==> WellFormedAttr(list[i]))
        && AttrsText(list) == attrs.value
  }

  /** The class names `ClassesLength` ran over, read back out of the text */
  function ClassNames(s: string): (names: seq<string>)
    ensures forall i :: 0 <= i < |names| ==> IsWord(names[i])
    decreases |s|
  {
    if |s| == 0 || s[0] != '.' then []
    else
      var w := WordLength(s[1..]);
      [s[1..][..w]] + ClassNames(s[1 + w..])
  }

  /** The class names read back print as the text `ClassesLength` ran over. */
  lemma {:induction false} ClassNamesText(s: string)
    ensures ClassTextThen(ClassNames(s), s[ClassesLength(s)..]) == s
    decreases |s|
  {
    if |s| == 0 || s[0] != '.' {
      assert s[0..] == s;
    } else {
      var w := WordLength(s[1..]);
      var m := ClassesLength(s[1 + w..]);
      var tail := ClassNames(s[1 + w..]);
      assert ClassesLength(s) == 1 + w + m;
      assert ClassNames(s) == [s[1..][..w]] + tail;
      ClassNamesText(s[1 + w..]);
      ClassNamesStep(s, w, m, ClassesLength(s), ClassNames(s), tail);
    }
  }

  /** The attribute `AttrLength` ran over, read back out of the text */
  function AttrOf(s: string): (a: Attr)
    requires AttrLength(s) > 0
    ensures WellFormedAttr(a)
    ensures AttrTextThen(a, s[AttrLength(s)..]) == s
  {
    var k := WordLength(s[1..]);
    var v := ValueLength(s[2 + k..]);
    AttrShape(s, k, v);
    ValueLengthChars(s[2 + k..]);
    var a := Attr(s[1..][..k], s[2 + k..][..v]);
    AttrFront(s, k, v, AttrLength(s), a);
    a
  }

  /** What a positive `AttrLength` says about the text, with the key and value lengths named */
  lemma AttrShape(s: string, k: nat, v: nat)
    requires AttrLength(s) > 0 && 1 <= |s| && k == WordLength(s[1..])
    requires 2 + k <= |s| && v == ValueLength(s[2 + k..])
    ensures 0 < k && 3 + k + v <= |s| && AttrLength(s) == 3 + k + v
    ensures s[0] == '[' && s[1 + k] == '=' && s[2 + k + v] == ']'
  {
  }

  /** The attributes `AttrsLength` ran over, read back out of the text */
  function AttrsOf(s: string): (attrs: seq<Attr>)
    ensures forall i :: 0 <= i < |attrs| ==> WellFormedAttr(attrs[i])
    decreases |s|
  {
    var a := AttrLength(s);
    if a == 0 then [] else [AttrOf(s)] + AttrsOf(s[a..])
  }

  /** The attributes read back print as the text `AttrsLength` ran over. */
  lemma {:induction false} AttrsOfText(s: string)
    ensures AttrsTextThen(AttrsOf(s), s[AttrsLength(s)..]) == s
    decreases |s|
  {
    var a := AttrLength(s);
    if a == 0 {
      assert s[0..] == s;
    } else {
      var m := AttrsLength(s[a..]);
      var tail := AttrsOf(s[a..]);
      assert AttrsLength(s) == a + m;
      assert AttrsOf(s) == [AttrOf(s)] + tail;
      AttrsOfText(s[a..]);
      AttrsOfStep(s, a, m, AttrsLength(s), AttrsOf(s), AttrOf(s), tail);
    }
  }

  lemma ClassNamesStep(s: string, w: nat, m: nat, n: nat, names: seq<string>, tail: seq<string>)
    requires |s| > 0 && s[0] == '.' && w <= |s| - 1 && m <= |s| - 1 - w && n == 1 + w + m
    requires names == [s[1..][..w]] + tail
    requires ClassTextThen(tail, s[1 + w..][m..]) == s[1 + w..]
    ensures ClassTextThen(names, s[n..]) == s
  {
    assert names[0] == s[1..][..w] && names[1..] == tail;
    DropDrop(s, 1 + w, m);
    DotWordFront(s, w);
  }

  lemma AttrsOfStep(s: string, a: nat, m: nat, n: nat, attrs: seq<Attr>, first: Attr, tail: seq<Attr>)
    requires a <= |s| && m <= |s| - a && n == a + m
    requires attrs == [first] + tail
    requires AttrTextThen(first, s[a..]) == s
    requires AttrsTextThen(tail, s[a..][m..]) == s[a..]
    ensures AttrsTextThen(attrs, s[n..]) == s
  {
    assert attrs[0] == first && attrs[1..] == tail;
    DropDrop(s, a, m);
  }

  lemma DropDrop(s: string, a: nat, b: nat)
    requires a <= |s| && b <= |s| - a
    ensures s[a..][b..] == s[a + b..]
  {
  }

  lemma DotWordFront(s: string, w: nat)
    requires |s| > 0 && s[0] == '.' && w <= |s| - 1
    ensures "." + (s[1..][..w] + s[1 + w..]) == s
  {
    assert s[1..] == s[1..][..w] + s[1 + w..];
    assert s == [s[0]] + s[1..];
  }

  lemma AttrFront(s: string, k: nat, v: nat, n: nat, a: Attr)
    requires 3 + k + v <= |s| && s[0] == '[' && s[1 + k] == '=' && s[2 + k + v] == ']'
    requires n == 3 + k + v && a == Attr(s[1..][..k], s[2 + k..][..v])
    ensures AttrTextThen(a, s[n..]) == s
  {
    var rest := s[n..];
    var t3 := s[2 + k + v..];
    BraceFront(t3, "]");
    DropDrop(s, 2 + k + v, 1);
    var t2 := s[2 + k..];
    SplitAt(t2, v);
    DropDrop(s, 2 + k, v);
    var t1 := s[1 + k..];
    BraceFront(t1, "=");
    DropDrop(s, 1 + k, 1);
    var t0 := s[1..];
    SplitAt(t0, k);
    DropDrop(s, 1, k);
    BraceFront(s, "[");
    AttrCompose(s, t0, t1, t2, t3, rest, a);
  }

  lemma SplitAt(t: string, n: nat)
    requires n <= |t|
    ensures t == t[..n] + t[n..]
  {
  }

  lemma AttrCompose(s: string, t0: string, t1: string, t2: string, t3: string, rest: string, a: Attr)
    requires s == "[" + t0 && t0 == a.key + t1 && t1 == "=" + t2 && t2 == a.value + t3 && t3 == "]" + rest
    ensures AttrTextThen(a, rest) == s
  {
  }

  /** A text cut into a front and a back is that front and back. */
  lemma CutFront(front: string, back: string, s: string, n: nat)
    requires n <= |s| && front + back == s && |front| == n
    ensures front == s[..n] && back == s[n..]
  {
  }

  /** The class names at the front of `s` form a class group. */
  lemma ClassGroupAt(s: string)
    ensures IsClassGroup(s[..ClassesLength(s)])
  {
    var names := ClassNames(s);
    ClassNamesText(s);
    ClassTextAppend(names, s[ClassesLength(s)..]);
    assert ClassText(names) == s[..ClassesLength(s)];
  }

  /** The attributes at the front of `s` are the text of a list of well-formed attributes. */
  lemma AttrsGroupAt(s: string)
    ensures s[..AttrsLength(s)] == "" || IsAttrsGroup(Some(s[..AttrsLength(s)]))
  {
    var list := AttrsOf(s);
    AttrsOfText(s);
    AttrsTextAppend(list, s[AttrsLength(s)..]);
    assert AttrsText(list) == s[..AttrsLength(s)];
  }

  /** `tag#id.c1.c2[k=v]` at the front of `s`: the four head groups and the text after them */
  function ScanHead(s: string): (r: (string, Option<string>, string, string, string))
    ensures s == r.0 + (IdText(r.1) + (r.2 + (r.3 + r.4)))
    ensures IsWord(r.0) && IsIdGroup(r.1)
  {
    var (tagName, s2) := CutAt(s, WordLength(s));
    var (idGroup, s3) := ScanId(s2);
    var (classes, s4) := CutAt(s3, ClassesLength(s3));
    var (attrsText, s5) := CutAt(s4, AttrsLength(s4));
    (tagName, idGroup, classes, attrsText, s5)
  }

  /**
    The class and attribute groups `ScanHead` cuts have the grammar's shape,
    and each group runs as far as it can: the tag and the id stop before a
    word character, the classes before a dot, the attributes before another
    complete `[key=value]`.
   */
  lemma ScanHeadGroups(s: string)
    ensures var r := ScanHead(s);
      && IsClassGroup(r.2)
      && (r.3 == "" || IsAttrsGroup(Some(r.3)))
      && (var afterTag := IdText(r.1) + (r.2 + (r.3 + r.4)); |afterTag| > 0 ==> !IsWordChar(afterTag[0]))
      && (r.1.Some? && |r.2 + (r.3 + r.4)| > 0 ==> !IsWordChar((r.2 + (r.3 + r.4))[0]))
      && (|r.3 + r.4| > 0 ==> (r.3 + r.4)[0] != '.')
      && AttrLength(r.4) == 0
  {
    var (tagName, s2) := CutAt(s, WordLength(s));
    var (idGroup, s3) := ScanId(s2);
    var (classes, s4) := CutAt(s3, ClassesLength(s3));
    var (attrsText, s5) := CutAt(s4, AttrsLength(s4));
    assert ScanHead(s) == (tagName, idGroup, classes, attrsText, s5);
    CutFront(tagName, s2, s, WordLength(s));
    CutFront(classes, s4, s3, ClassesLength(s3));
    CutFront(attrsText, s5, s4, AttrsLength(s4));
    ScanIdStops(s2);
    ClassesLengthStops(s3);
    ClassGroupAt(s3);
    AttrsGroupAt(s4);
    AttrsLengthMaximal(s4);
  }

  /** The symbol at the front of `s`, if one starts there, and the text after it */
  function ScanSymbol(s: string): (r: Option<Match>)
    ensures r.Some? ==> s == SymbolTextThen(r.value.symbol, r.value.rest)
    ensures r.Some? ==> IsWord(r.value.symbol.capture.tagName) && IsSpaces(r.value.symbol.gap)
    ensures r.Some? ==> IsIdGroup(r.value.symbol.capture.idGroup)
    ensures r.Some? ==> forall i :: 0 <= i < |r.value.symbol.capture.expression| ==>
      IsExpressionChar(r.value.symbol.capture.expression[i])
  {
    if |s| == 0 || s[0] != '{' then None
    else
      var (tagName, idGroup, classes, attrsText, s5) := ScanHead(s[1..]);
      var attrs := if attrsText == "" then None else Some(attrsText);
      var body := ScanBody(s5);
      if body.None? then None
      else
        var expression := body.value.0;
        var gap := body.value.1;
        var rest := body.value.2;
        var sc := Scanned(Capture(tagName, idGroup, classes, attrs, expression), gap);
        assert AttrsGroupText(attrs) == attrsText;
        assert s5 == BodyThen(expression, gap, rest);
        assert s[1..] == tagName + (IdText(idGroup) + (classes + (attrsText + s5)));
        OpeningBrace(s);
        Some(Match(sc, rest))
  }

  /** A capture whose every group has the grammar's shape is the capture of a well-formed symbol. */
  lemma CaptureWellFormed(c: Capture)
    requires IsWord(c.tagName) && IsIdGroup(c.idGroup) && IsClassGroup(c.classes) && IsAttrsGroup(c.attrs)
    requires forall i :: 0 <= i < |c.expression| ==> IsExpressionChar(c.expression[i])
    ensures exists sym :: WellFormed(sym) && CaptureOf(sym) == c
  {
    var names := ClassNamesFor(c.classes);
    var attrs := AttrsFor(c.attrs);
    var id := IdFor(c.idGroup);
    var sym := Symbol(c.tagName, id, names, attrs, c.expression);
    assert CaptureOf(sym) == c;
    assert WellFormed(sym);
  }

  lemma ClassNamesFor(classes: string) returns (names: seq<string>)
    requires IsClassGroup(classes)
    ensures (forall i :: 0 <= i < |names| ==> IsWord(names[i])) && ClassText(names) == classes
  {
    names :| (forall i :: 0 <= i < |names| ==> IsWord(names[i])) && ClassText(names) == classes;
  }

  lemma AttrsFor(group: Option<string>) returns (attrs: seq<Attr>)
    requires IsAttrsGroup(group)
    ensures forall i :: 0 <= i < |attrs| ==> WellFormedAttr(attrs[i])
    ensures (if |attrs| == 0 then None else Some(AttrsText(attrs))) == group
  {
    attrs := [];
    if group.Some? {
      attrs :| |attrs| > 0 && (forall i :: 0 <= i < |attrs| ==> WellFormedAttr(attrs[i]))
        && AttrsText(attrs) == group.value;
    }
  }

  lemma IdFor(idGroup: Option<string>) returns (id: Option<string>)
    requires IsIdGroup(idGroup)
    ensures id.Some? ==> IsWord(id.value)
    ensures (match id case None => None case Some(w) => Some("#" + w)) == idGroup
  {
    id := None;
    if idGroup.Some? {
      id := Some(idGroup.value[1..]);
      assert "#" + id.value == idGroup.value;
    }
  }

  /** What `ScanSymbol` matched is the text of some well-formed symbol. */
  lemma ScanSymbolWellFormed(s: string)
    requires ScanSymbol(s).Some?
    ensures exists sym :: WellFormed(sym) && CaptureOf(sym) == ScanSymbol(s).value.symbol.capture
  {
    var c := ScanSymbol(s).value.symbol.capture;
    var head := ScanHead(s[1..]);
    ScanHeadGroups(s[1..]);
    assert c.classes == head.2 && c.attrs == (if head.3 == "" then None else Some(head.3));
    CaptureWellFormed(c);
  }

  /** A template cut into literal text and symbols */
  datatype Piece = Text(text: string) | Sym(symbol: Scanned)

  function PieceText(p: Piece): string {
    match p
    case Text(t) => t
    case Sym(sc) => SymbolText(sc)
  }

  function Render(pieces: seq<Piece>): string
    decreases |pieces|
  {
    if |pieces| == 0 then "" else PieceText(pieces[0]) + Render(pieces[1..])
  }

  /** Prepend one literal character, extending a leading text piece */
  function PushChar(c: char, pieces: seq<Piece>): (r: seq<Piece>)
    ensures Render(r) == [c] + Render(pieces)
    ensures forall p :: p in r && p.Sym? ==> p in pieces
  {
    if |pieces| > 0 && pieces[0].Text? then
      var r := [Text([c] + pieces[0].text)] + pieces[1..];
      assert r[1..] == pieces[1..];
      r
    else
      var r := [Text([c])] + pieces;
      assert r[1..] == pieces;
      r
  }

  /** Every symbol piece names its id, if at all, as `#` and a word */
  predicate IdGroupsWellFormed(pieces: seq<Piece>) {
    forall p :: p in pieces && p.Sym? ==> IsIdGroup(p.symbol.capture.idGroup)
  }

  /** The symbol piece at `i` is the symbol the pattern matches there, and the rest follows it */
  predicate SymbolAt(pieces: seq<Piece>, i: nat)
    requires i < |pieces|
  {
    pieces[i].Sym? ==> ScanSymbol(Render(pieces[i..])) == Some(Match(pieces[i].symbol, Render(pieces[i + 1..])))
  }

  /** No symbol starts at any position of the text piece at `i` */
  predicate NoSymbolAt(pieces: seq<Piece>, i: nat)
    requires i < |pieces|
  {
    var text := Render(pieces[i..]);
    assert pieces[i..][0] == pieces[i];
    pieces[i].Text? ==>
      forall k :: 0 <= k < |pieces[i].text| ==> ScanSymbol(text[k..]).None?
  }

  /**
    The pieces are what a global `replace` visits: scanning from the left, a
    symbol is taken wherever the pattern matches, the scan resumes after it,
    and every position the scan passes over starts no symbol.
   */
  predicate LeftmostScan(pieces: seq<Piece>) {
    forall i :: 0 <= i < |pieces| ==> SymbolAt(pieces, i) && NoSymbolAt(pieces, i)
  }

  lemma ConsAt(x: Piece, pieces: seq<Piece>, i: nat)
    requires 1 <= i <= |pieces|
    ensures SymbolAt([x] + pieces, i) == SymbolAt(pieces, i - 1)
    ensures NoSymbolAt([x] + pieces, i) == NoSymbolAt(pieces, i - 1)
  {
    var r := [x] + pieces;
    assert r[i] == pieces[i - 1];
    assert r[i..] == pieces[i - 1..];
    assert r[i + 1..] == pieces[i..];
    assert Render(r[i..]) == Render(pieces[i - 1..]);
    assert Render(r[i + 1..]) == Render(pieces[i..]);
  }

  lemma LeftmostCons(x: Piece, pieces: seq<Piece>)
    requires LeftmostScan(pieces)
    requires SymbolAt([x] + pieces, 0) && NoSymbolAt([x] + pieces, 0)
    ensures LeftmostScan([x] + pieces)
  {
    forall i | 1 <= i < |[x] + pieces| ensures SymbolAt([x] + pieces, i) && NoSymbolAt([x] + pieces, i) {
      assert SymbolAt(pieces, i - 1) && NoSymbolAt(pieces, i - 1);
      ConsAt(x, pieces, i);
    }
  }

  lemma LeftmostTail(pieces: seq<Piece>)
    requires |pieces| > 0 && LeftmostScan(pieces)
    ensures LeftmostScan(pieces[1..])
  {
    var tail := pieces[1..];
    assert pieces == [pieces[0]] + tail;
    forall i | 0 <= i < |tail| ensures SymbolAt(tail, i) && NoSymbolAt(tail, i) {
      ConsAt(pieces[0], tail, i + 1);
    }
  }

  /** A character at which no symbol starts joins the leading literal text. */
  lemma PushCharLeftmost(c: char, pieces: seq<Piece>)
    requires LeftmostScan(pieces)
    requires ScanSymbol([c] + Render(pieces)).None?
    ensures LeftmostScan(PushChar(c, pieces))
  {
    var r := PushChar(c, pieces);
    if |pieces| > 0 && pieces[0].Text? {
      var tail := pieces[1..];
      LeftmostTail(pieces);
      TextClear(pieces);
      HeadClear(c, Render(pieces), |pieces[0].text|);
      assert r[1..] == tail;
      assert r[0..] == r;
      assert NoSymbolAt(r, 0);
      assert r == [r[0]] + tail;
      LeftmostCons(r[0], tail);
    } else {
      assert r[1..] == pieces;
      assert r[0..] == r;
      assert NoSymbolAt(r, 0);
      assert r == [r[0]] + pieces;
      LeftmostCons(r[0], pieces);
    }
  }

  lemma TextClear(pieces: seq<Piece>)
    requires |pieces| > 0 && LeftmostScan(pieces) && pieces[0].Text?
    ensures |pieces[0].text| <= |Render(pieces)|
    ensures forall k :: 0 <= k < |pieces[0].text| ==> ScanSymbol(Render(pieces)[k..]).None?
  {
    assert NoSymbolAt(pieces, 0);
    assert pieces[0..] == pieces;
  }

  /** No symbol starts at the first `n + 1` positions of `[c] + s` when none starts at `[c] + s` or the first `n` of `s`. */
  lemma HeadClear(c: char, s: string, n: nat)
    requires n <= |s|
    requires ScanSymbol([c] + s).None?
    requires forall k :: 0 <= k < n ==> ScanSymbol(s[k..]).None?
    ensures forall k :: 0 <= k < n + 1 ==> ScanSymbol(([c] + s)[k..]).None?
  {
    forall k | 0 <= k < n + 1 ensures ScanSymbol(([c] + s)[k..]).None? {
      if k == 0 {
        assert ([c] + s)[k..] == [c] + s;
      } else {
        DropCons(c, s, k);
      }
    }
  }

  lemma DropCons(c: char, s: string, k: nat)
    requires 1 <= k <= |s| + 1
    ensures ([c] + s)[k..] == s[k - 1..]
  {
  }

  /** A symbol found at the front, followed by the pieces of the text after it */
  lemma SymbolCons(s: string, m: Match, pieces: seq<Piece>)
    requires ScanSymbol(s) == Some(m)
    requires Render(pieces) == m.rest && LeftmostScan(pieces) && IdGroupsWellFormed(pieces)
    ensures Render([Sym(m.symbol)] + pieces) == s
    ensures LeftmostScan([Sym(m.symbol)] + pieces)
    ensures IdGroupsWellFormed([Sym(m.symbol)] + pieces)
  {
    var r := [Sym(m.symbol)] + pieces;
    SymbolTextAppend(m.symbol, m.rest);
    assert r[1..] == pieces;
    assert r[0..] == r;
    assert SymbolAt(r, 0);
    LeftmostCons(Sym(m.symbol), pieces);
  }

  /** No symbol at the front: the first character joins the literal text before the pieces of the rest. */
  lemma PushCharStep(s: string, pieces: seq<Piece>)
    requires |s| > 0 && ScanSymbol(s).None?
    requires Render(pieces) == s[1..] && LeftmostScan(pieces) && IdGroupsWellFormed(pieces)
    ensures Render(PushChar(s[0], pieces)) == s
    ensures LeftmostScan(PushChar(s[0], pieces))
    ensures IdGroupsWellFormed(PushChar(s[0], pieces))
  {
    assert s == [s[0]] + s[1..];
    PushCharLeftmost(s[0], pieces);
  }

  /** Cut a template into literal text and the symbols `template.replace` visits. */
  function Tokenize(s: string): (pieces: seq<Piece>)
    ensures Render(pieces) == s
    ensures IdGroupsWellFormed(pieces)
    ensures LeftmostScan(pieces)
    decreases |s|
  {
    if |s| == 0 then []
    else
      match ScanSymbol(s)
      case Some(m) =>
        SymbolCons(s, m, Tokenize(m.rest));
        [Sym(m.symbol)] + Tokenize(m.rest)
      case None =>
        PushCharStep(s, Tokenize(s[1..]));
        PushChar(s[0], Tokenize(s[1..]))
  }

  /** Every symbol a template is cut into is what some well-formed symbol prints as. */
  lemma TokenizeWellFormed(s: string)
    ensures var pieces := Tokenize(s);
      forall i :: 0 <= i < |pieces| && pieces[i].Sym? ==>
        exists sym :: WellFormed(sym) && CaptureOf(sym) == pieces[i].symbol.capture
  {
    var pieces := Tokenize(s);
    forall i | 0 <= i < |pieces| && pieces[i].Sym?
      ensures exists sym :: WellFormed(sym) && CaptureOf(sym) == pieces[i].symbol.capture
    {
      assert SymbolAt(pieces, i);
      ScanSymbolWellFormed(Render(pieces[i..]));
    }
  }

  /** A template without an opening brace holds no symbol: it is one literal text. */
  lemma {:induction false} TokenizePlainText(s: string)
    requires |s| > 0 && '{' !in s
    ensures Tokenize(s) == [Text(s)]
    decreases |s|
  {
    assert s[0] in s;
    assert ScanSymbol(s).None?;
    assert [s[0]] + s[1..] == s;
    if |s| > 1 {
      assert forall c :: c in s[1..] ==> c in s;
      TokenizePlainText(s[1..]);
    } else {
      assert s[1..] == [];
      assert Tokenize(s[1..]) == [];
      assert Tokenize(s) == PushChar(s[0], []);
      assert PushChar(s[0], []) == [Text([s[0]])];
      assert [s[0]] == s;
    }
  }

  // ---------------------------------------------------------------------------
  // Symbols as template authors write them

  datatype Attr = Attr(key: string, value: string)

  datatype Symbol = Symbol(
    tagName: string,
    id: Option<string>,
    classNames: seq<string>,
    attrs: seq<Attr>,
    expression: string)

  predicate WellFormedAttr(a: Attr) {
    && |a.key| > 0 && IsWord(a.key)
    && forall i :: 0 <= i < |a.value| ==> IsValueChar(a.value[i])
  }

  /** What the grammar admits in each part of a symbol */
  predicate WellFormed(sym: Symbol) {
    && IsWord(sym.tagName)
    && (sym.id.Some? ==> IsWord(sym.id.value))
    && (forall i :: 0 <= i < |sym.classNames| ==> IsWord(sym.classNames[i]))
    && (forall i :: 0 <= i < |sym.attrs| ==> WellFormedAttr(sym.attrs[i]))
    && (forall i :: 0 <= i < |sym.expression| ==> IsExpressionChar(sym.expression[i]))
  }

  function ClassTextThen(names: seq<string>, rest: string): string
    decreases |names|
  {
    if |names| == 0 then rest else "." + (names[0] + ClassTextThen(names[1..], rest))
  }

  /** `.c1.c2...` */
  function ClassText(names: seq<string>): string {
    ClassTextThen(names, "")
  }

  function AttrTextThen(a: Attr, rest: string): string {
    "[" + (a.key + ("=" + (a.value + ("]" + rest))))
  }

  function AttrsTextThen(attrs: seq<Attr>, rest: string): string
    decreases |attrs|
  {
    if |attrs| == 0 then rest else AttrTextThen(attrs[0], AttrsTextThen(attrs[1..], rest))
  }

  /** `[k1=v1][k2=v2]...` */
  function AttrsText(attrs: seq<Attr>): string {
    AttrsTextThen(attrs, "")
  }

  lemma {:induction false} ClassTextAppend(names: seq<string>, rest: string)
    ensures ClassText(names) + rest == ClassTextThen(names, rest)
    decreases |names|
  {
    if |names| == 0 {
      assert "" + rest == rest;
    } else {
      ClassTextAppend(names[1..], rest);
      var t := ClassText(names[1..]);
      assert ("." + (names[0] + t)) + rest == "." + (names[0] + (t + rest));
    }
  }

  lemma {:induction false} AttrsTextAppend(attrs: seq<Attr>, rest: string)
    ensures AttrsText(attrs) + rest == AttrsTextThen(attrs, rest)
    decreases |attrs|
  {
    if |attrs| == 0 {
      assert "" + rest == rest;
    } else {
      AttrsTextAppend(attrs[1..], rest);
      var t := AttrsText(attrs[1..]);
      var a := attrs[0];
      assert AttrTextThen(a, t) + rest == AttrTextThen(a, t + rest);
    }
  }

  /** The groups a written symbol yields */
  function CaptureOf(sym: Symbol): Capture {
    Capture(
      sym.tagName,
      match sym.id case None => None case Some(w) => Some("#" + w),
      ClassText(sym.classNames),
      if |sym.attrs| == 0 then None else Some(AttrsText(sym.attrs)),
      sym.expression)
  }

  /** The text of a written symbol, with no white space before its last brace */
  function Print(sym: Symbol): string {
    SymbolText(Scanned(CaptureOf(sym), ""))
  }

  // ---------------------------------------------------------------------------
  // Scanning what was printed

  lemma {:induction false} WordLengthOf(w: string, rest: string)
    requires IsWord(w) && (|rest| == 0 || !IsWordChar(rest[0]))
    ensures WordLength(w + rest) == |w|
    decreases |w|
  {
    if |w| > 0 {
      assert (w + rest)[1..] == w[1..] + rest;
      WordLengthOf(w[1..], rest);
    } else {
      assert w + rest == rest;
    }
  }

  lemma {:induction false} ValueLengthOf(v: string, rest: string)
    requires forall i :: 0 <= i < |v| ==> IsValueChar(v[i])
    requires |rest| > 0 && !IsValueChar(rest[0])
    ensures ValueLength(v + rest) == |v|
    decreases |v|
  {
    if |v| > 0 {
      assert (v + rest)[1..] == v[1..] + rest;
      ValueLengthOf(v[1..], rest);
    } else {
      assert v + rest == rest;
    }
  }

  lemma {:induction false} ExpressionLengthOf(e: string, rest: string)
    requires forall i :: 0 <= i < |e| ==> IsExpressionChar(e[i])
    requires |rest| > 0 && !IsExpressionChar(rest[0])
    ensures ExpressionLength(e + rest) == |e|
    decreases |e|
  {
    if |e| > 0 {
      assert (e + rest)[1..] == e[1..] + rest;
      ExpressionLengthOf(e[1..], rest);
    } else {
      assert e + rest == rest;
    }
  }

  /** What may follow the class names: not a word character, not a dot */
  predicate EndsClasses(rest: string) {
    |rest| == 0 || (!IsWordChar(rest[0]) && rest[0] != '.')
  }

  lemma {:induction false} ClassesLengthOf(names: seq<string>, rest: string)
    requires forall i :: 0 <= i < |names| ==> IsWord(names[i])
    requires EndsClasses(rest)
    ensures ClassesLength(ClassTextThen(names, rest)) == |ClassTextThen(names, rest)| - |rest|
    decreases |names|
  {
    if |names| == 0 {
    } else {
      var tail := ClassTextThen(names[1..], rest);
      var s := ClassTextThen(names, rest);
      assert s[1..] == names[0] + tail;
      ClassesLengthOf(names[1..], rest);
      assert |tail| == 0 || !IsWordChar(tail[0]);
      WordLengthOf(names[0], tail);
      assert s[1 + |names[0]|..] == tail;
    }
  }

  lemma AttrLengthOf(a: Attr, rest: string)
    requires WellFormedAttr(a)
    ensures AttrLength(AttrTextThen(a, rest)) == |AttrTextThen(a, rest)| - |rest|
  {
    var s := AttrTextThen(a, rest);
    var afterKey := "=" + (a.value + ("]" + rest));
    assert s[1..] == a.key + afterKey;
    WordLengthOf(a.key, afterKey);
    assert s[2 + |a.key|..] == a.value + ("]" + rest);
    ValueLengthOf(a.value, "]" + rest);
  }

  lemma {:induction false} AttrsLengthOf(attrs: seq<Attr>, rest: string)
    requires forall i :: 0 <= i < |attrs| ==> WellFormedAttr(attrs[i])
    requires |rest| == 0 || rest[0] != '['
    ensures AttrsLength(AttrsTextThen(attrs, rest)) == |AttrsTextThen(attrs, rest)| - |rest|
    decreases |attrs|
  {
    if |attrs| > 0 {
      var tail := AttrsTextThen(attrs[1..], rest);
      var s := AttrsTextThen(attrs, rest);
      AttrLengthOf(attrs[0], tail);
      assert s[|s| - |tail|..] == tail;
      AttrsLengthOf(attrs[1..], rest);
    }
  }

  /** The text after the tag name of a printed symbol */
  function AfterTag(sym: Symbol, rest: string): string {
    var c := CaptureOf(sym);
    IdText(c.idGroup) + ClassTextThen(sym.classNames,
      AttrsTextThen(sym.attrs, BodyThen(sym.expression, "", rest)))
  }

  lemma PrintThen(sym: Symbol, rest: string)
    ensures Print(sym) + rest == "{" + (sym.tagName + AfterTag(sym, rest))
  {
    var c := CaptureOf(sym);
    var body := BodyThen(sym.expression, "", rest);
    SymbolTextAppend(Scanned(c, ""), rest);
    AttrsTextAppend(sym.attrs, body);
    assert AttrsGroupText(c.attrs) + body == AttrsTextThen(sym.attrs, body);
    ClassTextAppend(sym.classNames, AttrsTextThen(sym.attrs, body));
  }

  lemma ScanBodyPrint(expression: string, rest: string)
    requires forall i :: 0 <= i < |expression| ==> IsExpressionChar(expression[i])
    ensures ScanBody(BodyThen(expression, "", rest)) == Some((expression, "", rest))
  {
    var body := BodyThen(expression, "", rest);
    var closing := "}" + ("" + ("}" + rest));
    assert body[1..] == expression + closing;
    ExpressionLengthOf(expression, closing);
    assert CutAt(body[1..], |expression|) == (expression, closing);
    assert closing[1..] == "}" + rest;
    assert SpacesLength(closing[1..]) == 0;
    assert CutAt(closing[1..], 0) == ("", "}" + rest);
  }

  /** The id, classes and attributes of a printed symbol, and the text after them */
  lemma ScanIdPrint(sym: Symbol, rest: string)
    requires WellFormed(sym)
    ensures var c := CaptureOf(sym);
      ScanId(AfterTag(sym, rest)) ==
        (c.idGroup, ClassTextThen(sym.classNames,
          AttrsTextThen(sym.attrs, BodyThen(sym.expression, "", rest))))
  {
    var c := CaptureOf(sym);
    var body := BodyThen(sym.expression, "", rest);
    var afterClasses := AttrsTextThen(sym.attrs, body);
    var afterId := ClassTextThen(sym.classNames, afterClasses);
    var afterTag := AfterTag(sym, rest);
    assert afterClasses[0] == '{' || afterClasses[0] == '[';
    assert afterId[0] == '{' || afterId[0] == '[' || afterId[0] == '.';
    match sym.id {
      case None =>
        assert afterTag == afterId;
      case Some(w) =>
        assert afterTag == "#" + w + afterId;
        assert afterTag[1..] == w + afterId;
        WordLengthOf(w, afterId);
        assert CutAt(afterTag[1..], |w|) == (w, afterId);
        assert [afterTag[0]] + w == "#" + w;
    }
  }

  lemma ScanHeadPrint(sym: Symbol, rest: string)
    requires WellFormed(sym)
    ensures var c := CaptureOf(sym);
      ScanHead(sym.tagName + AfterTag(sym, rest)) ==
        (sym.tagName, c.idGroup, c.classes, AttrsText(sym.attrs), BodyThen(sym.expression, "", rest))
  {
    var c := CaptureOf(sym);
    var body := BodyThen(sym.expression, "", rest);
    var afterClasses := AttrsTextThen(sym.attrs, body);
    var afterId := ClassTextThen(sym.classNames, afterClasses);
    var afterTag := AfterTag(sym, rest);
    var s := sym.tagName + afterTag;
    assert afterClasses[0] == '{' || afterClasses[0] == '[';
    assert afterId[0] == '{' || afterId[0] == '[' || afterId[0] == '.';
    assert afterTag[0] == '{' || afterTag[0] == '[' || afterTag[0] == '.' || afterTag[0] == '#';
    WordLengthOf(sym.tagName, afterTag);
    assert CutAt(s, WordLength(s)) == (sym.tagName, afterTag);
    ScanIdPrint(sym, rest);
    assert EndsClasses(afterClasses);
    ClassesCut(sym.classNames, afterClasses);
    AttrsCut(sym.attrs, body);
    ScanHeadSteps(s, sym.tagName, afterTag, c.idGroup, afterId, c.classes, afterClasses,
      AttrsText(sym.attrs), body);
  }

  lemma ClassesCut(names: seq<string>, afterClasses: string)
    requires forall i :: 0 <= i < |names| ==> IsWord(names[i])
    requires EndsClasses(afterClasses)
    ensures var afterId := ClassTextThen(names, afterClasses);
      CutAt(afterId, ClassesLength(afterId)) == (ClassText(names), afterClasses)
  {
    var afterId := ClassTextThen(names, afterClasses);
    ClassesLengthOf(names, afterClasses);
    ClassTextAppend(names, afterClasses);
    CutOfConcat(ClassText(names), afterClasses, ClassesLength(afterId));
  }

  lemma AttrsCut(attrs: seq<Attr>, body: string)
    requires forall i :: 0 <= i < |attrs| ==> WellFormedAttr(attrs[i])
    requires |body| == 0 || body[0] != '['
    ensures var afterClasses := AttrsTextThen(attrs, body);
      CutAt(afterClasses, AttrsLength(afterClasses)) == (AttrsText(attrs), body)
  {
    var afterClasses := AttrsTextThen(attrs, body);
    AttrsLengthOf(attrs, body);
    AttrsTextAppend(attrs, body);
    CutOfConcat(AttrsText(attrs), body, AttrsLength(afterClasses));
  }

  /** Cutting `u + v` after `|u|` characters gives `u` and `v` back */
  lemma CutOfConcat(u: string, v: string, n: nat)
    requires n == |u|
    ensures CutAt(u + v, n) == (u, v)
  {
    assert (u + v)[..n] == u;
    assert (u + v)[n..] == v;
  }

  /** How `ScanHead` combines the four cuts it makes */
  lemma ScanHeadSteps(s: string, tagName: string, s2: string, idGroup: Option<string>, s3: string,
                      classes: string, s4: string, attrsText: string, s5: string)
    requires CutAt(s, WordLength(s)) == (tagName, s2)
    requires ScanId(s2) == (idGroup, s3)
    requires CutAt(s3, ClassesLength(s3)) == (classes, s4)
    requires CutAt(s4, AttrsLength(s4)) == (attrsText, s5)
    ensures ScanHead(s) == (tagName, idGroup, classes, attrsText, s5)
  {
  }

  /** How `ScanSymbol` combines the head and the body it scans */
  lemma ScanSymbolSteps(s: string, head: (string, Option<string>, string, string, string),
                        body: (string, string, string))
    requires |s| > 0 && s[0] == '{'
    requires ScanHead(s[1..]) == head
    requires ScanBody(head.4) == Some(body)
    ensures ScanSymbol(s) == Some(Match(Scanned(
      Capture(head.0, head.1, head.2, if head.3 == "" then None else Some(head.3), body.0), body.1), body.2))
  {
  }

  /** Scanning a written symbol gives back its groups and the text after it. */
  lemma ScanPrint(sym: Symbol, rest: string)
    requires WellFormed(sym)
    ensures ScanSymbol(Print(sym) + rest) == Some(Match(Scanned(CaptureOf(sym), ""), rest))
  {
    var s := Print(sym) + rest;
    var c := CaptureOf(sym);
    PrintThen(sym, rest);
    AfterOpeningBrace(s, sym.tagName + AfterTag(sym, rest));
    ScanHeadPrint(sym, rest);
    ScanBodyPrint(sym.expression, rest);
    ScanSymbolSteps(s, (sym.tagName, c.idGroup, c.classes, AttrsText(sym.attrs), BodyThen(sym.expression, "", rest)),
      (sym.expression, "", rest));
    assert (AttrsText(sym.attrs) == "") == (|sym.attrs| == 0);
  }

  /** A template that is one written symbol is cut into exactly that symbol. */
  lemma TokenizeSymbol(sym: Symbol)
    requires WellFormed(sym)
    ensures Tokenize(Print(sym)) == [Sym(Scanned(CaptureOf(sym), ""))]
  {
    var s := Print(sym);
    ScanPrint(sym, "");
    assert s + "" == s;
    assert Tokenize(s) == [Sym(Scanned(CaptureOf(sym), ""))] + Tokenize("");
  }
}

/**
  The parts the compiler reads off a symbol's captured groups
  (pistachio.js, the first lines of the `template.replace` callback):
  the id after `#`, the class names after each `.`, the attribute text with
  its brackets removed, the `isCustom` flag and the tag name, which defaults
  to `span`.
 */
module SymbolParts {
  import opened Wrappers
  import opened Strings
  import opened SymbolSyntax

  datatype Parts = Parts(
    tagName: string,
    id: string,               // "" when the symbol names no id
    classNames: seq<string>,
    attrs: string,
    isCustom: bool)

  /** `attrs.replace(/\]\[/g, ' ')` */
  function JoinBrackets(s: string): string
    decreases |s|
  {
    if |s| == 0 then ""
    else if |s| >= 2 && s[0] == ']' && s[1] == '[' then " " + JoinBrackets(s[2..])
    else [s[0]] + JoinBrackets(s[1..])
  }

  predicate IsBracket(c: char) {
    c == '[' || c == ']'
  }

  predicate NoBrackets(s: string) {
    forall i :: 0 <= i < |s| ==> !IsBracket(s[i])
  }

  /** `.replace(/\[|\]/g, '')` */
  function StripBrackets(s: string): (r: string)
    ensures NoBrackets(r) && |r| <= |s|
    decreases |s|
  {
    if |s| == 0 then ""
    else if IsBracket(s[0]) then StripBrackets(s[1..])
    else [s[0]] + StripBrackets(s[1..])
  }

  /** The attribute text as written into the placeholder: `][` becomes a space, other brackets go. */
  function NormalizeAttrs(s: string): (r: string)
    ensures NoBrackets(r)
  {
    StripBrackets(JoinBrackets(s))
  }

  /** `id.split('#')[1]`; "" stands for `undefined`, which is falsy like "" */
  function IdOf(idGroup: Option<string>): string {
    match idGroup
    case None => ""
    case Some(g) =>
      var fields := Split(g, '#');
      if |fields| >= 2 then fields[1] else ""
  }

  function ParseParts(c: Capture): (p: Parts)
    ensures p.tagName != "" && NoBrackets(p.attrs)
    ensures c.tagName != "" ==> p.tagName == c.tagName
    ensures !p.isCustom ==> p.tagName == "span" && p.id == "" && p.classNames == [] && p.attrs == ""
  {
    var id := IdOf(c.idGroup);
    var fields := Split(c.classes, '.');
    var classNames := fields[1..];
    assert c.classes == "" ==> fields == [""];
    var attrs := match c.attrs case None => "" case Some(a) => NormalizeAttrs(a);
    // computed before the tag name defaults to `span`
    var isCustom := c.tagName != "" || id != "" || |c.classes| > 0 || |attrs| > 0;
    Parts(if c.tagName == "" then "span" else c.tagName, id, classNames, attrs, isCustom)
  }

  // ---------------------------------------------------------------------------
  // The parts of a written symbol

  /** `key=value` */
  function AttrString(a: Attr): string {
    a.key + "=" + a.value
  }

  function AttrStrings(attrs: seq<Attr>): (r: seq<string>)
    ensures |r| == |attrs|
    ensures forall i :: 0 <= i < |attrs| ==> r[i] == AttrString(attrs[i])
    decreases |attrs|
  {
    if |attrs| == 0 then [] else [AttrString(attrs[0])] + AttrStrings(attrs[1..])
  }

  /** Text without a closing bracket passes through `JoinBrackets` unchanged. */
  lemma {:induction false} JoinBracketsPrefix(u: string, v: string)
    requires ']' !in u
    ensures JoinBrackets(u + v) == u + JoinBrackets(v)
    decreases |u|
  {
    if |u| > 0 {
      var s := u + v;
      assert s[0] == u[0] != ']';
      assert JoinBrackets(s) == [s[0]] + JoinBrackets(s[1..]);
      assert s[1..] == u[1..] + v;
      assert ']' !in u[1..] by {
        forall i | 0 <= i < |u[1..]| ensures u[1..][i] != ']' {
          assert u[1..][i] == u[i + 1];
        }
      }
      JoinBracketsPrefix(u[1..], v);
      assert [u[0]] + (u[1..] + JoinBrackets(v)) == u + JoinBrackets(v);
    } else {
      assert u + v == v;
    }
  }

  /** `[k=v` : an attribute without its closing bracket */
  function OpenAttr(a: Attr): string {
    "[" + a.key + "=" + a.value
  }

  lemma OpenAttrNoClose(a: Attr)
    requires WellFormedAttr(a)
    ensures ']' !in OpenAttr(a)
  {
    var o := OpenAttr(a);
    forall i | 0 <= i < |o| ensures o[i] != ']' {
      if 1 <= i <= |a.key| {
        assert o[i] == a.key[i - 1];
      } else if |a.key| + 2 <= i {
        assert o[i] == a.value[i - |a.key| - 2];
      }
    }
  }

  lemma AttrTextSplit(a: Attr, rest: string)
    ensures AttrTextThen(a, rest) == OpenAttr(a) + ("]" + rest)
    ensures OpenAttr(a) == "[" + AttrString(a)
  {
  }

  lemma JoinBracketsGap(x: string)
    ensures JoinBrackets("][" + x) == " " + JoinBrackets(x)
  {
    assert ("][" + x)[2..] == x;
  }

  lemma JoinBracketsClose()
    ensures JoinBrackets("]") == "]"
  {
  }

  lemma JoinBracketsOpen(x: string)
    ensures JoinBrackets("[" + x) == "[" + JoinBrackets(x)
  {
    JoinBracketsPrefix("[", x);
  }

  /** Cancel a leading character. */
  lemma DropFirst(c: string, u: string, v: string)
    requires |c| == 1 && c + u == c + v
    ensures u == v
  {
    assert u == (c + u)[1..];
    assert v == (c + v)[1..];
  }

  /** `JoinBrackets` turns each `][` between written attributes into a space. */
  lemma {:induction false} JoinBracketsAttrs(attrs: seq<Attr>)
    requires |attrs| >= 1
    requires forall i :: 0 <= i < |attrs| ==> WellFormedAttr(attrs[i])
    ensures JoinBrackets(AttrsText(attrs)) == "[" + Join(AttrStrings(attrs), ' ') + "]"
    decreases |attrs|
  {
    var a := attrs[0];
    var tail := AttrsText(attrs[1..]);
    var open := OpenAttr(a);
    assert AttrsText(attrs) == AttrTextThen(a, tail);
    AttrTextSplit(a, tail);
    OpenAttrNoClose(a);
    JoinBracketsPrefix(open, "]" + tail);
    // JoinBrackets(AttrsText(attrs)) == open + JoinBrackets("]" + tail)
    if |attrs| == 1 {
      assert attrs[1..] == [];
      assert tail == "";
      JoinBracketsClose();
      assert "]" + tail == "]";
      assert AttrStrings(attrs) == [AttrString(a)];
      assert Join([AttrString(a)], ' ') == AttrString(a);
      assert open + "]" == "[" + AttrString(a) + "]";
    } else {
      JoinBracketsAttrs(attrs[1..]);
      JoinBracketsMore(attrs);
    }
  }

  /** The step of `JoinBracketsAttrs` from the attributes after the first to all of them */
  lemma JoinBracketsMore(attrs: seq<Attr>)
    requires |attrs| >= 2
    requires JoinBrackets(AttrsText(attrs[1..])) == "[" + Join(AttrStrings(attrs[1..]), ' ') + "]"
    requires JoinBrackets(AttrsText(attrs)) == OpenAttr(attrs[0]) + JoinBrackets("]" + AttrsText(attrs[1..]))
    ensures JoinBrackets(AttrsText(attrs)) == "[" + Join(AttrStrings(attrs), ' ') + "]"
  {
    var head := AttrString(attrs[0]);
    var joined := Join(AttrStrings(attrs[1..]), ' ');
    var tail := AttrsText(attrs[1..]);
    var x := tail[1..];
    AttrsOpen(attrs[1..]);
    assert tail == "[" + x;
    var jx := JoinBrackets(x);
    GapAfterClose(x);
    assert JoinBrackets("]" + tail) == " " + jx;
    JoinBracketsOpen(x);
    assert "[" + jx == "[" + joined + "]";
    Regroup3("[", joined, "]");
    DropFirst("[", jx, joined + "]");
    AttrTextSplit(attrs[0], "");
    assert OpenAttr(attrs[0]) == "[" + head;
    JoinStrings(attrs);
    Regroup5("[", head, " ", joined, "]");
  }

  lemma Regroup3(a: string, b: string, c: string)
    ensures a + b + c == a + (b + c)
  {
  }

  lemma JoinStrings(attrs: seq<Attr>)
    requires |attrs| >= 2
    ensures Join(AttrStrings(attrs), ' ') == AttrString(attrs[0]) + " " + Join(AttrStrings(attrs[1..]), ' ')
  {
    JoinCons(AttrStrings(attrs));
    assert AttrStrings(attrs)[1..] == AttrStrings(attrs[1..]);
  }

  lemma AttrsOpen(attrs: seq<Attr>)
    requires |attrs| >= 1
    ensures AttrsText(attrs) == "[" + AttrsText(attrs)[1..]
  {
    var y := attrs[0].key + ("=" + (attrs[0].value + ("]" + AttrsTextThen(attrs[1..], ""))));
    assert AttrsText(attrs) == "[" + y;
    assert ("[" + y)[1..] == y;
  }

  lemma GapAfterClose(x: string)
    ensures JoinBrackets("]" + ("[" + x)) == " " + JoinBrackets(x)
  {
    assert "]" + ("[" + x) == "][" + x;
    JoinBracketsGap(x);
  }

  lemma JoinCons(parts: seq<string>)
    requires |parts| >= 2
    ensures Join(parts, ' ') == parts[0] + " " + Join(parts[1..], ' ')
  {
  }

  lemma Regroup5(a: string, b: string, c: string, d: string, e: string)
    ensures a + b + (c + (d + e)) == a + (b + c + d) + e
  {
  }

  lemma {:induction false} StripAppend(u: string, v: string)
    ensures StripBrackets(u + v) == StripBrackets(u) + StripBrackets(v)
    decreases |u|
  {
    if |u| > 0 {
      assert (u + v)[1..] == u[1..] + v;
      StripAppend(u[1..], v);
    } else {
      assert u + v == v;
    }
  }

  lemma {:induction false} StripClean(u: string)
    requires NoBrackets(u)
    ensures StripBrackets(u) == u
    decreases |u|
  {
    if |u| > 0 {
      StripClean(u[1..]);
      assert u == [u[0]] + u[1..];
    }
  }

  lemma {:induction false} JoinNoBrackets(items: seq<string>)
    requires forall i :: 0 <= i < |items| ==> NoBrackets(items[i])
    ensures NoBrackets(Join(items, ' '))
    decreases |items|
  {
    if |items| > 1 {
      JoinNoBrackets(items[1..]);
    }
  }

  lemma AttrStringNoBrackets(a: Attr)
    requires WellFormedAttr(a)
    ensures NoBrackets(AttrString(a))
  {
    var s := AttrString(a);
    forall i | 0 <= i < |s| ensures !IsBracket(s[i]) {
      if i < |a.key| {
        assert s[i] == a.key[i];
      } else if i > |a.key| {
        assert s[i] == a.value[i - |a.key| - 1];
      }
    }
  }

  /** Written attributes `[k1=v1][k2=v2]` become `k1=v1 k2=v2`. */
  lemma NormalizeAttrsText(attrs: seq<Attr>)
    requires |attrs| >= 1
    requires forall i :: 0 <= i < |attrs| ==> WellFormedAttr(attrs[i])
    ensures NormalizeAttrs(AttrsText(attrs)) == Join(AttrStrings(attrs), ' ')
  {
    JoinBracketsAttrs(attrs);
    var items := AttrStrings(attrs);
    var joined := Join(items, ' ');
    forall i | 0 <= i < |items| ensures NoBrackets(items[i]) {
      AttrStringNoBrackets(attrs[i]);
    }
    JoinNoBrackets(items);
    StripFrame(joined);
  }

  lemma StripFrame(j: string)
    requires NoBrackets(j)
    ensures StripBrackets("[" + j + "]") == j
  {
    assert "[" + j + "]" == "[" + (j + "]");
    StripAppend("[", j + "]");
    StripAppend(j, "]");
    StripClean(j);
    assert StripBrackets("[") == "";
    assert StripBrackets("]") == "";
  }

  lemma {:induction false} ClassTextIsJoin(names: seq<string>)
    requires |names| >= 1
    ensures ClassText(names) == "." + Join(names, '.')
    decreases |names|
  {
    var t := ClassText(names[1..]);
    assert ClassText(names) == "." + (names[0] + t);
    if |names| > 1 {
      ClassTextIsJoin(names[1..]);
      assert names[0] + ("." + Join(names[1..], '.')) == names[0] + "." + Join(names[1..], '.');
    } else {
      assert t == "";
      assert names[0] + "" == names[0];
    }
  }

  /** A word holds no character outside `\w`. */
  lemma WordLacks(w: string, c: char)
    requires IsWord(w) && !IsWordChar(c)
    ensures c !in w
  {
  }

  /** The class names after each `.`, for words */
  lemma ClassNamesOfText(names: seq<string>)
    requires forall i :: 0 <= i < |names| ==> IsWord(names[i])
    ensures Split(ClassText(names), '.')[1..] == names
  {
    if |names| > 0 {
      ClassTextIsJoin(names);
      forall i | 0 <= i < |names| ensures '.' !in names[i] {
        WordLacks(names[i], '.');
      }
      SplitAround("", Join(names, '.'), '.');
      assert "" + "." + Join(names, '.') == "." + Join(names, '.');
      SplitJoin(names, '.');
    }
  }

  /** `#w` yields the id `w` */
  lemma IdOfWord(w: string)
    requires IsWord(w)
    ensures IdOf(Some("#" + w)) == w
  {
    WordLacks(w, '#');
    SplitAround("", w, '#');
    assert "" + "#" + w == "#" + w;
    SplitWhole(w, '#');
  }

  /** The parts of a written symbol, stated in terms of what its author wrote */
  lemma PartsOfSymbol(sym: Symbol)
    requires WellFormed(sym)
    ensures var p := ParseParts(CaptureOf(sym));
      && p.tagName == (if sym.tagName == "" then "span" else sym.tagName)
      && p.id == (if sym.id.Some? then sym.id.value else "")
      && p.classNames == sym.classNames
      && p.attrs == Join(AttrStrings(sym.attrs), ' ')
      && (p.isCustom <==>
            sym.tagName != "" || p.id != "" || |sym.classNames| > 0 || |sym.attrs| > 0)
  {
    var c := CaptureOf(sym);
    if sym.id.Some? {
      IdOfWord(sym.id.value);
    }
    ClassNamesOfText(sym.classNames);
    if |sym.attrs| > 0 {
      NormalizeAttrsText(sym.attrs);
      AttrStringNoBrackets(sym.attrs[0]);
      assert |Join(AttrStrings(sym.attrs), ' ')| > 0 by {
        JoinLength(AttrStrings(sym.attrs));
      }
    }
    assert (|c.classes| > 0) == (|sym.classNames| > 0);
  }

  /** The parts of whatever `ScanSymbol` matches are those of a written, well-formed symbol. */
  lemma ScannedParts(s: string)
    requires ScanSymbol(s).Some?
    ensures var c := ScanSymbol(s).value.symbol.capture;
      var p := ParseParts(c);
      exists sym :: WellFormed(sym) && CaptureOf(sym) == c
        && p.tagName == (if sym.tagName == "" then "span" else sym.tagName)
        && p.classNames == sym.classNames
        && p.attrs == Join(AttrStrings(sym.attrs), ' ')
        && (p.isCustom <==>
              sym.tagName != "" || p.id != "" || |sym.classNames| > 0 || |sym.attrs| > 0)
  {
    var c := ScanSymbol(s).value.symbol.capture;
    ScanSymbolWellFormed(s);
    var sym :| WellFormed(sym) && CaptureOf(sym) == c;
    PartsOfSymbol(sym);
  }

  lemma JoinLength(items: seq<string>)
    requires |items| >= 1 && |items[0]| > 0
    ensures |Join(items, ' ')| > 0
  {
  }
}

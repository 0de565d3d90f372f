/**
  The placeholder element the compiler writes where a symbol stood
  (pistachio.js, the last lines of the `template.replace` callback): an empty
  element with the symbol's tag name, its class list, the data paths and
  sub-view names it reads, the symbol's own attribute text and its id.
 */
module Placeholder {
  import opened Wrappers
  import opened Strings

  /** `name='value'`, or attribute text written verbatim */
  datatype Attribute = Named(name: string, value: string) | Raw(text: string)

  datatype Element = Element(tagName: string, attributes: seq<Attribute>)

  /** Each attribute is preceded by one space */
  function AttributeText(a: Attribute): string {
    match a
    case Named(n, v) => " " + n + "='" + v + "'"
    case Raw(t) => " " + t
  }

  function AttributesText(attrs: seq<Attribute>): string
    decreases |attrs|
  {
    if |attrs| == 0 then "" else AttributeText(attrs[0]) + AttributesText(attrs[1..])
  }

  /** An element with no content: its start tag directly followed by its end tag */
  function Serialize(e: Element): string {
    "<" + e.tagName + AttributesText(e.attributes) + "></" + e.tagName + ">"
  }

  /** The value of the first attribute called `name`, if there is one */
  function FindNamed(attrs: seq<Attribute>, name: string): (r: Option<string>)
    ensures r.Some? ==> Named(name, r.value) in attrs
    ensures r.None? <==> forall i :: 0 <= i < |attrs| ==> !(attrs[i].Named? && attrs[i].name == name)
    decreases |attrs|
  {
    if |attrs| == 0 then None
    else if attrs[0].Named? && attrs[0].name == name then Some(attrs[0].value)
    else
      var r := FindNamed(attrs[1..], name);
      assert forall i :: 1 <= i < |attrs| ==> attrs[i] == attrs[1..][i - 1];
      r
  }

  lemma {:induction false} FindNamedAppend(a: seq<Attribute>, b: seq<Attribute>, name: string)
    ensures FindNamed(a + b, name) ==
      if FindNamed(a, name).Some? then FindNamed(a, name) else FindNamed(b, name)
    decreases |a|
  {
    if |a| == 0 {
      assert a + b == b;
    } else {
      assert (a + b)[0] == a[0];
      assert (a + b)[1..] == a[1..] + b;
      FindNamedAppend(a[1..], b, name);
    }
  }

  /**
    The class list: the symbol's own class names, then `<prefix>data` when it
    reads data, then `<prefix>subview` when it embeds a sub-view.
   */
  function ClassList(prefix: string, classNames: seq<string>, dataPaths: seq<string>,
                     subViewNames: seq<string>): (r: seq<string>)
    ensures |r| == |classNames| + (if |dataPaths| > 0 then 1 else 0) + (if |subViewNames| > 0 then 1 else 0)
    ensures r[..|classNames|] == classNames
    ensures |dataPaths| > 0 ==> r[|classNames|] == prefix + "data"
    ensures |subViewNames| > 0 ==> r[|r| - 1] == prefix + "subview"
  {
    var withData := if |dataPaths| > 0 then classNames + [prefix + "data"] else classNames;
    var r := if |subViewNames| > 0 then withData + [prefix + "subview"] else withData;
    assert r[..|classNames|] == classNames by {
      assert withData[..|classNames|] == classNames;
    }
    r
  }

  /** A named attribute present exactly when its list is not empty */
  function ListAttribute(name: string, items: seq<string>): seq<Attribute> {
    if |items| > 0 then [Named(name, Join(items, ' '))] else []
  }

  function PathsName(prefix: string): string {
    "data-" + prefix + "paths"
  }

  function SubviewsName(prefix: string): string {
    "data-" + prefix + "subviews"
  }

  lemma NamesDiffer(prefix: string)
    ensures "class" != PathsName(prefix) && "class" != SubviewsName(prefix) && "class" != "id"
    ensures PathsName(prefix) != SubviewsName(prefix)
    ensures "id" != PathsName(prefix) && "id" != SubviewsName(prefix)
  {
    assert |PathsName(prefix)| == |prefix| + 10;
    assert |SubviewsName(prefix)| == |prefix| + 13;
  }

  lemma FindInList(name: string, items: seq<string>, other: string)
    ensures FindNamed(ListAttribute(name, items), other) ==
      if |items| > 0 && other == name then Some(Join(items, ' ')) else None
  {
    if |items| > 0 {
      assert ListAttribute(name, items)[1..] == [];
    }
  }

  /** The attributes in the order the source writes them */
  function Attributes(prefix: string, classes: seq<string>, dataPaths: seq<string>,
                      subViewNames: seq<string>, attrs: string, id: string): seq<Attribute>
  {
    ListAttribute("class", classes)
      + (ListAttribute(PathsName(prefix), dataPaths)
      + (ListAttribute(SubviewsName(prefix), subViewNames)
      + [Raw(attrs), Named("id", id)]))
  }

  lemma FindInTail(attrs: string, id: string, name: string)
    ensures FindNamed([Raw(attrs), Named("id", id)], name) == if name == "id" then Some(id) else None
  {
    assert [Raw(attrs), Named("id", id)][1..] == [Named("id", id)];
    assert [Named("id", id)][1..] == [];
  }

  /** The first of four lists that has an attribute called `name` decides. */
  lemma FindInFour(a: seq<Attribute>, b: seq<Attribute>, c: seq<Attribute>, d: seq<Attribute>, name: string)
    ensures FindNamed(a + (b + (c + d)), name) ==
      if FindNamed(a, name).Some? then FindNamed(a, name)
      else if FindNamed(b, name).Some? then FindNamed(b, name)
      else if FindNamed(c, name).Some? then FindNamed(c, name)
      else FindNamed(d, name)
  {
    FindNamedAppend(a, b + (c + d), name);
    FindNamedAppend(b, c + d, name);
    FindNamedAppend(c, d, name);
  }

  lemma FindEach(prefix: string, classes: seq<string>, dataPaths: seq<string>,
                 subViewNames: seq<string>, attrs: string, id: string, name: string)
    requires name in {"class", PathsName(prefix), SubviewsName(prefix), "id"}
    ensures FindNamed(Attributes(prefix, classes, dataPaths, subViewNames, attrs, id), name) ==
      if name == "class" then (if |classes| > 0 then Some(Join(classes, ' ')) else None)
      else if name == PathsName(prefix) then (if |dataPaths| > 0 then Some(Join(dataPaths, ' ')) else None)
      else if name == SubviewsName(prefix) then (if |subViewNames| > 0 then Some(Join(subViewNames, ' ')) else None)
      else Some(id)
  {
    NamesDiffer(prefix);
    FindInFour(ListAttribute("class", classes), ListAttribute(PathsName(prefix), dataPaths),
      ListAttribute(SubviewsName(prefix), subViewNames), [Raw(attrs), Named("id", id)], name);
    FindInList("class", classes, name);
    FindInList(PathsName(prefix), dataPaths, name);
    FindInList(SubviewsName(prefix), subViewNames, name);
    FindInTail(attrs, id, name);
  }

  /**
    The placeholder of one symbol: `class` when the class list is not empty,
    `data-<prefix>paths` and `data-<prefix>subviews` when the symbol reads data
    or embeds a sub-view, then the symbol's attribute text and finally its id.
   */
  function Build(tagName: string, prefix: string, classNames: seq<string>, attrs: string,
                 id: string, dataPaths: seq<string>, subViewNames: seq<string>): (e: Element)
    ensures e.tagName == tagName
    ensures var n := |e.attributes|;
      n >= 2 && e.attributes[n - 2] == Raw(attrs) && e.attributes[n - 1] == Named("id", id)
    ensures var classes := ClassList(prefix, classNames, dataPaths, subViewNames);
      FindNamed(e.attributes, "class") == if |classes| > 0 then Some(Join(classes, ' ')) else None
    ensures FindNamed(e.attributes, PathsName(prefix)) ==
      if |dataPaths| > 0 then Some(Join(dataPaths, ' ')) else None
    ensures FindNamed(e.attributes, SubviewsName(prefix)) ==
      if |subViewNames| > 0 then Some(Join(subViewNames, ' ')) else None
    ensures FindNamed(e.attributes, "id") == Some(id)
  {
    var classes := ClassList(prefix, classNames, dataPaths, subViewNames);
    NamesDiffer(prefix);
    FindEach(prefix, classes, dataPaths, subViewNames, attrs, id, "class");
    FindEach(prefix, classes, dataPaths, subViewNames, attrs, id, PathsName(prefix));
    FindEach(prefix, classes, dataPaths, subViewNames, attrs, id, SubviewsName(prefix));
    FindEach(prefix, classes, dataPaths, subViewNames, attrs, id, "id");
    Element(tagName, Attributes(prefix, classes, dataPaths, subViewNames, attrs, id))
  }

  /** `dataPathsAttr` as the source writes it */
  function DataPathsAttr(prefix: string, dataPaths: seq<string>): string {
    if |dataPaths| > 0 then " data-" + prefix + "paths='" + Join(dataPaths, ' ') + "'" else ""
  }

  /** `subViewNamesAttr` as the source writes it */
  function SubViewNamesAttr(prefix: string, subViewNames: seq<string>): string {
    if |subViewNames| > 0 then " data-" + prefix + "subviews='" + Join(subViewNames, ' ') + "'" else ""
  }

  /** `classAttr` as the source writes it */
  function ClassAttr(classes: seq<string>): string {
    if |classes| > 0 then " class='" + Join(classes, ' ') + "'" else ""
  }

  /**
    The markup as the source assembles it: `classAttr`, `dataPathsAttr` and
    `subViewNamesAttr` are each empty or a leading space and one attribute.
   */
  function SourceHtml(tagName: string, prefix: string, classNames: seq<string>, attrs: string,
                      id: string, dataPaths: seq<string>, subViewNames: seq<string>): string
  {
    var classAttr := ClassAttr(ClassList(prefix, classNames, dataPaths, subViewNames));
    "<" + tagName + classAttr + DataPathsAttr(prefix, dataPaths) + SubViewNamesAttr(prefix, subViewNames)
      + " " + attrs + " id='" + id + "'></" + tagName + ">"
  }

  lemma ListAttributeText(name: string, items: seq<string>)
    ensures AttributesText(ListAttribute(name, items)) ==
      if |items| > 0 then " " + name + "='" + Join(items, ' ') + "'" else ""
  {
    if |items| > 0 {
      assert ListAttribute(name, items)[1..] == [];
    }
  }

  lemma {:induction false} AttributesTextAppend(a: seq<Attribute>, b: seq<Attribute>)
    ensures AttributesText(a + b) == AttributesText(a) + AttributesText(b)
    decreases |a|
  {
    if |a| == 0 {
      assert a + b == b;
    } else {
      assert (a + b)[0] == a[0];
      assert (a + b)[1..] == a[1..] + b;
      AttributesTextAppend(a[1..], b);
    }
  }

  lemma Regroup(lt: string, tag: string, a: string, b: string, c: string, sp: string, attrs: string,
                idOpen: string, id: string, quote: string, close: string, gt: string)
    ensures lt + tag + (a + (b + (c + (sp + attrs + idOpen + id + quote)))) + close + tag + gt
         == lt + tag + a + b + c + sp + attrs + idOpen + id + (quote + close) + tag + gt
  {
  }

  lemma SerializeParts(e: Element, a: seq<Attribute>, b: seq<Attribute>, c: seq<Attribute>, d: seq<Attribute>)
    requires e.attributes == a + (b + (c + d))
    ensures Serialize(e) == "<" + e.tagName
      + (AttributesText(a) + (AttributesText(b) + (AttributesText(c) + AttributesText(d))))
      + "></" + e.tagName + ">"
  {
    AttributesTextAppend(a, b + (c + d));
    AttributesTextAppend(b, c + d);
    AttributesTextAppend(c, d);
  }

  lemma ClassAttrText(classes: seq<string>)
    ensures AttributesText(ListAttribute("class", classes)) == ClassAttr(classes)
  {
    ListAttributeText("class", classes);
    ClassLiteral();
  }

  lemma ClassLiteral()
    ensures " " + "class" + "='" == " class='"
  {
    var u := " " + "class" + "='";
    assert |u| == 8 && u[0] == ' ' && u[6] == '=' && u[7] == '\'';
  }

  /** `sp + (x + p + y) + eq + v + q` regrouped as `(sp + x) + p + (y + eq) + v + q` */
  lemma Regroup7(sp: string, x: string, p: string, y: string, eq: string, v: string, q: string)
    ensures sp + (x + p + y) + eq + v + q == (sp + x) + p + (y + eq) + v + q
  {
  }

  lemma PathsAttrText(prefix: string, dataPaths: seq<string>)
    ensures AttributesText(ListAttribute(PathsName(prefix), dataPaths)) == DataPathsAttr(prefix, dataPaths)
  {
    ListAttributeText(PathsName(prefix), dataPaths);
    Regroup7(" ", "data-", prefix, "paths", "='", Join(dataPaths, ' '), "'");
    PathsLiteral();
  }

  lemma PathsLiteral()
    ensures " " + "data-" == " data-" && "paths" + "='" == "paths='"
  {
    var u := "paths" + "='";
    assert |u| == 7 && u[5] == '=' && u[6] == '\'';
  }

  lemma SubviewsAttrText(prefix: string, subViewNames: seq<string>)
    ensures AttributesText(ListAttribute(SubviewsName(prefix), subViewNames)) == SubViewNamesAttr(prefix, subViewNames)
  {
    ListAttributeText(SubviewsName(prefix), subViewNames);
    Regroup7(" ", "data-", prefix, "subviews", "='", Join(subViewNames, ' '), "'");
    SubviewsLiteral();
  }

  lemma SubviewsLiteral()
    ensures " " + "data-" == " data-" && "subviews" + "='" == "subviews='"
  {
    assert "subviews" + "='" == "subviews='" by {
      var u := "subviews" + "='";
      assert |u| == 10;
      assert u[8] == '=' && u[9] == '\'';
    }
  }

  lemma TailText(attrs: string, id: string)
    ensures AttributesText([Raw(attrs), Named("id", id)]) == " " + attrs + " id='" + id + "'"
  {
    var d := [Raw(attrs), Named("id", id)];
    assert d[1..] == [Named("id", id)];
    assert [Named("id", id)][1..] == [];
    assert AttributesText([Named("id", id)]) == " " + "id" + "='" + id + "'";
    IdLiteral();
  }

  lemma IdLiteral()
    ensures " " + "id" + "='" == " id='"
  {
    var u := " " + "id" + "='";
    assert |u| == 5 && u[3] == '=' && u[4] == '\'';
  }

  /** The structured placeholder serializes to exactly the markup the source builds. */
  lemma SerializeBuild(tagName: string, prefix: string, classNames: seq<string>, attrs: string,
                       id: string, dataPaths: seq<string>, subViewNames: seq<string>)
    ensures Serialize(Build(tagName, prefix, classNames, attrs, id, dataPaths, subViewNames)) ==
      SourceHtml(tagName, prefix, classNames, attrs, id, dataPaths, subViewNames)
  {
    var classes := ClassList(prefix, classNames, dataPaths, subViewNames);
    var a := ListAttribute("class", classes);
    var b := ListAttribute(PathsName(prefix), dataPaths);
    var c := ListAttribute(SubviewsName(prefix), subViewNames);
    var d := [Raw(attrs), Named("id", id)];
    var e := Build(tagName, prefix, classNames, attrs, id, dataPaths, subViewNames);
    SerializeParts(e, a, b, c, d);
    ClassAttrText(classes);
    PathsAttrText(prefix, dataPaths);
    SubviewsAttrText(prefix, subViewNames);
    TailText(attrs, id);
    Regroup("<", tagName, AttributesText(a), AttributesText(b), AttributesText(c), " ", attrs,
      " id='", id, "'", "></", ">");
    CloseLiteral();
  }

  lemma CloseLiteral()
    ensures "'" + "></" == "'></"
  {
    var u := "'" + "></";
    assert |u| == 4 && u[0] == '\'' && u[1] == '>';
  }

  /**
    Reading `data-<prefix>paths` back and splitting it at spaces gives the
    symbol's data paths, as long as no path holds a space.
   */
  lemma DataPathsReadBack(tagName: string, prefix: string, classNames: seq<string>, attrs: string,
                          id: string, dataPaths: seq<string>, subViewNames: seq<string>)
    requires |dataPaths| > 0
    requires forall i :: 0 <= i < |dataPaths| ==> ' ' !in dataPaths[i]
    ensures var e := Build(tagName, prefix, classNames, attrs, id, dataPaths, subViewNames);
      && FindNamed(e.attributes, PathsName(prefix)).Some?
      && Split(FindNamed(e.attributes, PathsName(prefix)).value, ' ') == dataPaths
  {
    SplitJoin(dataPaths, ' ');
  }

  /**
    Reading `data-<prefix>subviews` back gives the sub-view names, and the
    class list names `<prefix>subview`, when no name holds a space.
   */
  lemma SubviewNamesReadBack(tagName: string, prefix: string, classNames: seq<string>, attrs: string,
                             id: string, dataPaths: seq<string>, subViewNames: seq<string>)
    requires |subViewNames| > 0
    requires forall i :: 0 <= i < |subViewNames| ==> ' ' !in subViewNames[i]
    requires ' ' !in prefix && forall i :: 0 <= i < |classNames| ==> ' ' !in classNames[i]
    ensures var e := Build(tagName, prefix, classNames, attrs, id, dataPaths, subViewNames);
      && FindNamed(e.attributes, SubviewsName(prefix)).Some?
      && Split(FindNamed(e.attributes, SubviewsName(prefix)).value, ' ') == subViewNames
      && FindNamed(e.attributes, "class").Some?
      && prefix + "subview" in Split(FindNamed(e.attributes, "class").value, ' ')
  {
    SplitJoin(subViewNames, ' ');
    var classes := ClassList(prefix, classNames, dataPaths, subViewNames);
    forall i | 0 <= i < |classes| ensures ' ' !in classes[i] {
      if i < |classNames| {
        assert classes[i] == classes[..|classNames|][i];
      } else {
        assert classes[i] == prefix + "data" || classes[i] == prefix + "subview";
      }
    }
    SplitJoin(classes, ' ');
  }
}

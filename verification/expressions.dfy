/**
  Rewriting a symbol's expression (pistachio.js, inside the `template.replace`
  callback): every `#(path)` becomes `data('path')` and its path is recorded,
  then an expression that starts `> @name` or `embedChild @name` becomes
  `embedChild(@name)` and the sub-view name is recorded.
 */
module Expressions {
  import opened Wrappers
  import opened Strings

  /** The position of the first `c` in `s` */
  function IndexOf(s: string, c: char): (k: nat)
    requires c in s
    ensures k < |s| && s[k] == c && c !in s[..k]
    decreases |s|
  {
    if s[0] == c then 0
    else
      var k := 1 + IndexOf(s[1..], c);
      assert s[..k] == [s[0]] + s[1..][..k - 1];
      k
  }

  /**
    `expression.replace(/#\(([^)]*)\)/g, ...)`: from left to right, each `#(`
    with a `)` somewhere after it is a match running to the first `)`.
   */
  function RewriteData(e: string): (r: (string, seq<string>))
    ensures forall i :: 0 <= i < |r.1| ==> ')' !in r.1[i]
    decreases |e|
  {
    if |e| == 0 then ("", [])
    else if |e| >= 2 && e[0] == '#' && e[1] == '(' && ')' in e[2..] then
      var k := IndexOf(e[2..], ')');
      var path := e[2..][..k];
      var (out, paths) := RewriteData(e[2..][k + 1..]);
      ("data('" + path + "')" + out, [path] + paths)
    else
      var (out, paths) := RewriteData(e[1..]);
      ([e[0]] + out, paths)
  }

  // ---------------------------------------------------------------------------
  // Expressions seen as literal text and data references

  datatype Chunk = Lit(text: string) | Ref(path: string)

  /** Literal text inside which no `#(` starts */
  predicate PlainText(t: string) {
    forall i :: 0 <= i < |t| - 1 && t[i] == '#' ==> t[i + 1] != '('
  }

  /** Literal text ending in `#` is not followed by text that starts with `(`, which would make a `#(` */
  predicate NoHashParen(t: string, rest: string) {
    |t| > 0 && t[|t| - 1] == '#' ==> !(|rest| > 0 && rest[0] == '(')
  }

  predicate WellFormedChunk(c: Chunk) {
    match c
    case Lit(t) => PlainText(t)
    case Ref(p) => ')' !in p
  }

  /** The expression as written in the template */
  function SourceOf(chunks: seq<Chunk>): string
    decreases |chunks|
  {
    if |chunks| == 0 then ""
    else
      (match chunks[0] case Lit(t) => t case Ref(p) => "#(" + p + ")") + SourceOf(chunks[1..])
  }

  /** The expression with each reference read through `data` */
  function CompiledOf(chunks: seq<Chunk>): string
    decreases |chunks|
  {
    if |chunks| == 0 then ""
    else
      (match chunks[0] case Lit(t) => t case Ref(p) => "data('" + p + "')") + CompiledOf(chunks[1..])
  }

  /** The referenced paths, in source order */
  function PathsOf(chunks: seq<Chunk>): seq<string>
    decreases |chunks|
  {
    if |chunks| == 0 then []
    else (match chunks[0] case Lit(_) => [] case Ref(p) => [p]) + PathsOf(chunks[1..])
  }

  lemma {:induction false} RewriteLit(t: string, rest: string)
    requires PlainText(t) && NoHashParen(t, rest)
    ensures RewriteData(t + rest) == (t + RewriteData(rest).0, RewriteData(rest).1)
    decreases |t|
  {
    if |t| == 0 {
      assert t + rest == rest;
      assert t + RewriteData(rest).0 == RewriteData(rest).0;
    } else {
      var e := t + rest;
      var u := t[1..];
      LitHead(t, rest);
      LitTail(t, rest);
      RewriteLit(u, rest);
      var out := RewriteData(rest).0;
      assert RewriteData(e) == ([e[0]] + RewriteData(e[1..]).0, RewriteData(e[1..]).1);
      assert RewriteData(e[1..]) == (u + out, RewriteData(rest).1);
      ConsAppend(t, out);
    }
  }

  lemma ConsAppend(t: string, out: string)
    requires |t| > 0
    ensures [t[0]] + (t[1..] + out) == t + out
  {
    assert t == [t[0]] + t[1..];
  }

  /** No `#(` starts at the front of plain text */
  lemma LitHead(t: string, rest: string)
    requires |t| > 0 && PlainText(t) && NoHashParen(t, rest)
    ensures var e := t + rest; e[0] == t[0] && !(|e| >= 2 && e[0] == '#' && e[1] == '(')
  {
    var e := t + rest;
    assert e[0] == t[0];
    if t[0] == '#' && |e| >= 2 {
      if |t| >= 2 {
        assert e[1] == t[1];
      } else {
        assert e[1] == rest[0];
      }
    }
  }

  /** What follows the first character of plain text is plain text again */
  lemma LitTail(t: string, rest: string)
    requires |t| > 0 && PlainText(t) && NoHashParen(t, rest)
    ensures PlainText(t[1..]) && NoHashParen(t[1..], rest)
    ensures (t + rest)[1..] == t[1..] + rest
  {
    var u := t[1..];
    forall i | 0 <= i < |u| - 1 && u[i] == '#' ensures u[i + 1] != '(' {
      assert t[i + 1] == '#';
    }
    if |u| > 0 {
      assert u[|u| - 1] == t[|t| - 1];
    }
  }

  lemma {:induction false} IndexOfAfter(u: string, c: char, v: string)
    requires c !in u
    ensures c in u + [c] + v && IndexOf(u + [c] + v, c) == |u|
    decreases |u|
  {
    var s := u + [c] + v;
    assert s[|u|] == c;
    if |u| > 0 {
      assert s[1..] == u[1..] + [c] + v;
      IndexOfAfter(u[1..], c, v);
    }
  }

  lemma RewriteRef(p: string, rest: string)
    requires ')' !in p
    ensures RewriteData("#(" + p + ")" + rest) ==
      ("data('" + p + "')" + RewriteData(rest).0, [p] + RewriteData(rest).1)
  {
    var e := "#(" + p + ")" + rest;
    assert e[2..] == p + [')'] + rest;
    IndexOfAfter(p, ')', rest);
    assert e[2..][..|p|] == p;
    assert e[2..][|p| + 1..] == rest;
  }

  /**
    Chunks that spell an expression unambiguously: each is well formed, and
    no literal ending in `#` runs into text that starts with `(`.
   */
  predicate WellFormedChunks(chunks: seq<Chunk>) {
    forall i :: 0 <= i < |chunks| ==>
      && WellFormedChunk(chunks[i])
      && (chunks[i].Lit? ==> NoHashParen(chunks[i].text, SourceOf(chunks[i + 1..])))
  }

  lemma WellFormedTail(chunks: seq<Chunk>)
    requires |chunks| > 0 && WellFormedChunks(chunks)
    ensures WellFormedChunks(chunks[1..])
    ensures WellFormedChunk(chunks[0])
    ensures chunks[0].Lit? ==> NoHashParen(chunks[0].text, SourceOf(chunks[1..]))
  {
    var tail := chunks[1..];
    forall i | 0 <= i < |tail|
      ensures WellFormedChunk(tail[i]) && (tail[i].Lit? ==> NoHashParen(tail[i].text, SourceOf(tail[i + 1..])))
    {
      assert tail[i] == chunks[i + 1] && tail[i + 1..] == chunks[i + 2..];
    }
  }

  /** Every `#(path)` is replaced by `data('path')` and `path` recorded, in source order. */
  lemma {:induction false} RewriteDataChunks(chunks: seq<Chunk>)
    requires WellFormedChunks(chunks)
    ensures RewriteData(SourceOf(chunks)) == (CompiledOf(chunks), PathsOf(chunks))
    decreases |chunks|
  {
    if |chunks| > 0 {
      WellFormedTail(chunks);
      RewriteDataChunks(chunks[1..]);
      var rest := SourceOf(chunks[1..]);
      match chunks[0]
      case Lit(t) =>
        assert SourceOf(chunks) == t + rest;
        assert CompiledOf(chunks) == t + CompiledOf(chunks[1..]);
        assert PathsOf(chunks) == PathsOf(chunks[1..]);
        RewriteLit(t, rest);
      case Ref(p) =>
        RewriteRef(p, rest);
    }
  }

  /** Without a `)` nothing matches, not even a `#(`: the text is copied and no path is recorded. */
  lemma {:induction false} RewriteUnclosed(e: string)
    requires ')' !in e
    ensures RewriteData(e) == (e, [])
    decreases |e|
  {
    if |e| > 0 {
      if |e| >= 2 {
        assert forall c :: c in e[2..] ==> c in e;
      }
      assert forall c :: c in e[1..] ==> c in e;
      RewriteUnclosed(e[1..]);
      assert [e[0]] + e[1..] == e;
    }
  }

  // ---------------------------------------------------------------------------
  // Sub-views: `/^(?:>\s?|embedChild\s)(\@.+)/`

  /** `>`, `>` and one white-space character, or `embedChild` and one */
  predicate IsLead(l: string) {
    || l == ">"
    || (|l| == 2 && l[0] == '>' && IsSpace(l[1]))
    || (|l| == 11 && l[..10] == "embedChild" && IsSpace(l[10]))
  }

  /** `\@.+`: an '@' and at least one more character, up to the end of the line */
  predicate IsTarget(t: string) {
    |t| >= 2 && t[0] == '@' && OnOneLine(t)
  }

  predicate EndsLine(rest: string) {
    |rest| == 0 || IsLineTerminator(rest[0])
  }

  datatype SubviewMatch = SubviewMatch(lead: string, target: string, rest: string)

  function LineLength(s: string): (n: nat)
    ensures n <= |s| && (forall i :: 0 <= i < n ==> !IsLineTerminator(s[i]))
    ensures n < |s| ==> IsLineTerminator(s[n])
    decreases |s|
  {
    if |s| == 0 || IsLineTerminator(s[0]) then 0 else 1 + LineLength(s[1..])
  }

  /** The length of a lead followed by '@' at the start of `e`, or 0 */
  function LeadLength(e: string): nat {
    if |e| >= 2 && e[0] == '>' && e[1] == '@' then 1
    else if |e| >= 3 && e[0] == '>' && IsSpace(e[1]) && e[2] == '@' then 2
    else if |e| >= 12 && e[..10] == "embedChild" && IsSpace(e[10]) && e[11] == '@' then 11
    else 0
  }

  /** The sub-view form at the start of an expression, if it is there */
  function MatchSubview(e: string): (r: Option<SubviewMatch>)
    ensures r.Some? ==> e == r.value.lead + r.value.target + r.value.rest
    ensures r.Some? ==> IsLead(r.value.lead) && IsTarget(r.value.target) && EndsLine(r.value.rest)
  {
    var l := LeadLength(e);
    if l == 0 then None
    else
      var n := LineLength(e[l..]);
      if n < 2 then None
      else
        LeadOf(e);
        ThreeParts(e, l, n);
        Some(SubviewMatch(e[..l], e[l..][..n], e[l..][n..]))
  }

  /** A lead `LeadLength` finds is a lead, and an '@' follows it */
  lemma LeadOf(e: string)
    requires LeadLength(e) > 0
    ensures LeadLength(e) < |e| && IsLead(e[..LeadLength(e)]) && e[LeadLength(e)] == '@'
  {
    var l := LeadLength(e);
    if l == 11 {
      assert e[..l][..10] == e[..10];
    }
  }

  lemma ThreeParts(e: string, l: nat, n: nat)
    requires l <= |e| && n <= |e| - l
    ensures e == e[..l] + e[l..][..n] + e[l..][n..]
  {
    assert e[l..] == e[l..][..n] + e[l..][n..];
    assert e == e[..l] + e[l..];
  }

  lemma {:induction false} LineLengthOf(t: string, rest: string)
    requires forall i :: 0 <= i < |t| ==> !IsLineTerminator(t[i])
    requires EndsLine(rest)
    ensures LineLength(t + rest) == |t|
    decreases |t|
  {
    if |t| > 0 {
      assert (t + rest)[1..] == t[1..] + rest;
      LineLengthOf(t[1..], rest);
    } else {
      assert t + rest == rest;
    }
  }

  /** Every expression of the sub-view form is matched, with exactly its parts. */
  lemma MatchSubviewComplete(lead: string, target: string, rest: string)
    requires IsLead(lead) && IsTarget(target) && EndsLine(rest)
    ensures MatchSubview(lead + target + rest) == Some(SubviewMatch(lead, target, rest))
  {
    var after := target + rest;
    var e := lead + after;
    assert lead + target + rest == e;
    LeadLengthOf(lead, after);
    assert e[|lead|..] == after;
    assert e[..|lead|] == lead;
    LineLengthOf(target, rest);
    assert after[..|target|] == target;
    assert after[|target|..] == rest;
  }

  lemma LeadLengthOf(lead: string, after: string)
    requires IsLead(lead) && |after| > 0 && after[0] == '@'
    ensures LeadLength(lead + after) == |lead|
  {
    var e := lead + after;
    assert e[|lead|] == '@';
    if lead == ">" {
    } else if |lead| == 2 {
      assert e[1] == lead[1] && e[1] != '@';
    } else {
      assert e[..10] == lead[..10];
      assert e[0] != '>';
    }
  }

  /** `subViewName.replace(/\@\.?|this\./, '')`: the first `@`, `@.` or `this.` goes */
  function StripNamePrefix(t: string): string
    decreases |t|
  {
    if |t| == 0 then t
    else if t[0] == '@' then (if |t| >= 2 && t[1] == '.' then t[2..] else t[1..])
    else if |t| >= 5 && t[..5] == "this." then t[5..]
    else [t[0]] + StripNamePrefix(t[1..])
  }

  /** The sub-view name as the source records it: the target without its leading `@` or `@.` */
  function SubviewNameAsWritten(target: string): (name: string)
    requires IsTarget(target)
    ensures name == if target[1] == '.' then target[2..] else target[1..]
  {
    StripNamePrefix(target)
  }

  function TrimEnd(s: string): (r: string)
    ensures r <= s && (|r| > 0 ==> !IsSpace(r[|r| - 1]))
    ensures IsSpaces(s[|r|..])
    decreases |s|
  {
    if |s| == 0 || !IsSpace(s[|s| - 1]) then s
    else
      var r := TrimEnd(s[..|s| - 1]);
      assert s[|r|..] == s[..|s| - 1][|r|..] + [s[|s| - 1]];
      r
  }

  /** The corrected sub-view name: the name as written without the white space that ends it */
  function SubviewName(target: string): (name: string)
    requires IsTarget(target)
    ensures var written := SubviewNameAsWritten(target);
      && name <= written
      && IsSpaces(written[|name|..])
      && (|name| > 0 ==> !IsSpace(name[|name| - 1]))
  {
    TrimEnd(SubviewNameAsWritten(target))
  }

  datatype Rewritten = Rewritten(expression: string, dataPaths: seq<string>, subViewNames: seq<string>)

  /**
    Both rewrites of lines 135-141, in the source's order: data references
    first, then the sub-view form, whose name is recorded as written.
   */
  function Rewrite(e: string): (r: Rewritten)
    ensures r.dataPaths == RewriteData(e).1
    ensures |r.subViewNames| <= 1
    ensures |r.subViewNames| == 1 <==> MatchSubview(RewriteData(e).0).Some?
    ensures |r.subViewNames| == 0 ==> r.expression == RewriteData(e).0
  {
    var (compiled, paths) := RewriteData(e);
    match MatchSubview(compiled)
    case None => Rewritten(compiled, paths, [])
    case Some(m) =>
      Rewritten("embedChild(" + m.target + ")" + m.rest, paths, [SubviewNameAsWritten(m.target)])
  }

  /** The corrected rewrite: as the source, but the recorded sub-view name loses its trailing white space */
  function RewriteIntended(e: string): (r: Rewritten)
    ensures r.expression == Rewrite(e).expression && r.dataPaths == Rewrite(e).dataPaths
    ensures |r.subViewNames| == |Rewrite(e).subViewNames|
    ensures forall i :: 0 <= i < |r.subViewNames| ==> r.subViewNames[i] == TrimEnd(Rewrite(e).subViewNames[i])
  {
    var rw := Rewrite(e);
    if |rw.subViewNames| == 1 then rw.(subViewNames := [TrimEnd(rw.subViewNames[0])]) else rw
  }

  /**
    Every expression whose data-rewritten text has the sub-view form: the
    target is wrapped in `embedChild(...)`, the rest of the line and the text
    after it are kept, and the name recorded is the target's name as written
    (trimmed, in the corrected rewrite).
   */
  lemma RewriteSubviewAll(e: string, lead: string, target: string, rest: string)
    requires RewriteData(e).0 == lead + target + rest
    requires IsLead(lead) && IsTarget(target) && EndsLine(rest)
    ensures Rewrite(e) ==
      Rewritten("embedChild(" + target + ")" + rest, RewriteData(e).1, [SubviewNameAsWritten(target)])
    ensures RewriteIntended(e).subViewNames == [SubviewName(target)]
  {
    MatchSubviewComplete(lead, target, rest);
  }

  // ---------------------------------------------------------------------------
  // The documented sub-view forms `{{> @name }}` and `{div{> @name}}`

  predicate OnOneLine(t: string) {
    forall i :: 0 <= i < |t| ==> !IsLineTerminator(t[i])
  }

  lemma OnOneLineConcat(a: string, b: string)
    requires OnOneLine(a) && OnOneLine(b)
    ensures OnOneLine(a + b)
  {
    forall i | 0 <= i < |a + b| ensures !IsLineTerminator((a + b)[i]) {
      if i >= |a| {
        assert (a + b)[i] == b[i - |a|];
      }
    }
  }

  lemma NoHashPlain(t: string)
    requires '#' !in t
    ensures PlainText(t)
  {
  }

  lemma {:induction false} TrimSpaces(w: string, spaces: string)
    requires |w| > 0 && !IsSpace(w[|w| - 1]) && IsSpaces(spaces)
    ensures TrimEnd(w + spaces) == w
    decreases |spaces|
  {
    if |spaces| == 0 {
      assert w + spaces == w;
    } else {
      var s := w + spaces;
      assert s[..|s| - 1] == w + spaces[..|spaces| - 1];
      TrimSpaces(w, spaces[..|spaces| - 1]);
    }
  }

  /** A name written after `> @` and before the closing braces */
  predicate IsNameWithSpaces(name: string, spaces: string) {
    |name| > 0 && IsWord(name) && IsSpaces(spaces) && OnOneLine(spaces)
  }

  lemma SubviewFormParts(name: string, spaces: string)
    requires IsNameWithSpaces(name, spaces)
    ensures RewriteData("> @" + name + spaces) == ("> @" + name + spaces, [])
    ensures MatchSubview("> @" + name + spaces) == Some(SubviewMatch("> ", "@" + name + spaces, ""))
  {
    SubviewFormPlain(name, spaces);
    SubviewFormMatch(name, spaces);
  }

  lemma SubviewFormPlain(name: string, spaces: string)
    requires IsNameWithSpaces(name, spaces)
    ensures RewriteData("> @" + name + spaces) == ("> @" + name + spaces, [])
  {
    var e := "> @" + name + spaces;
    assert '#' !in name && '#' !in spaces;
    assert '#' !in e;
    NoHashPlain(e);
    RewriteLit(e, "");
    assert e + "" == e;
  }

  lemma SubviewFormMatch(name: string, spaces: string)
    requires IsNameWithSpaces(name, spaces)
    ensures MatchSubview("> @" + name + spaces) == Some(SubviewMatch("> ", "@" + name + spaces, ""))
  {
    var target := "@" + name + spaces;
    assert OnOneLine(name);
    OnOneLineConcat("@", name);
    OnOneLineConcat("@" + name, spaces);
    LeadThenTarget(name, spaces);
    MatchSubviewComplete("> ", target, "");
  }

  lemma LeadThenTarget(name: string, spaces: string)
    ensures "> @" + name + spaces == "> " + ("@" + name + spaces) + ""
  {
    assert "> @" == "> " + "@";
  }

  /**
    `> @name` followed by white space (as in `{{> @subView }}`) becomes
    `embedChild(@name ...)`, records no data path, and records the name
    together with that white space.
   */
  lemma RewriteSubviewForm(name: string, spaces: string)
    requires IsNameWithSpaces(name, spaces)
    ensures Rewrite("> @" + name + spaces) ==
      Rewritten("embedChild(" + ("@" + name + spaces) + ")", [], [name + spaces])
  {
    SubviewFormParts(name, spaces);
    var target := "@" + name + spaces;
    AfterAt(name, spaces);
    assert "embedChild(" + target + ")" + "" == "embedChild(" + target + ")";
  }

  lemma AfterAt(name: string, spaces: string)
    requires |name| > 0 && IsWord(name)
    ensures StripNamePrefix("@" + name + spaces) == name + spaces
  {
    var target := "@" + name + spaces;
    assert target == "@" + (name + spaces);
    assert target[1] == name[0] != '.';
  }

  /**
    As the source is written, the name recorded for `> @name` keeps the white
    space that precedes the closing braces, so it differs from the name; the
    corrected rewrite records the name itself.
   */
  lemma SubviewNameAsWrittenKeepsSpaces(name: string, spaces: string)
    requires IsNameWithSpaces(name, spaces) && |spaces| > 0
    ensures Rewrite("> @" + name + spaces).subViewNames == [name + spaces]
    ensures name + spaces != name
    ensures RewriteIntended("> @" + name + spaces).subViewNames == [name]
  {
    RewriteSubviewForm(name, spaces);
    assert |name + spaces| > |name|;
    TrimSpaces(name, spaces);
  }

  /**
    The documented `{{> @subView }}` records `"subView "`, which splits on
    spaces into `subView` and an empty name; the corrected rewrite records `subView`.
   */
  lemma SubviewNameKeepsTrailingSpace()
    ensures Rewrite("> @subView ").subViewNames == ["subView "]
    ensures Split("subView ", ' ') == ["subView", ""]
    ensures RewriteIntended("> @subView ").subViewNames == ["subView"]
  {
    SubviewExample();
    SplitExample();
    TrimExample();
  }

  lemma SubviewExample()
    ensures Rewrite("> @subView ").subViewNames == ["subView "]
  {
    ExampleForm();
    RewriteSubviewForm("subView", " ");
    ExampleText();
  }

  lemma ExampleForm()
    ensures IsNameWithSpaces("subView", " ")
  {
    assert IsWord("subView");
  }

  lemma ExampleText()
    ensures "> @" + "subView" + " " == "> @subView "
    ensures "subView" + " " == "subView "
  {
  }

  lemma SplitExample()
    ensures Split("subView ", ' ') == ["subView", ""]
  {
    var name := "subView";
    SplitField(name, "", ' ');
    assert name + [' '] + "" == "subView ";
    assert Split("", ' ') == [""];
  }

  lemma TrimExample()
    ensures TrimEnd("subView ") == "subView"
  {
    TrimSpaces("subView", " ");
    assert "subView" + " " == "subView ";
  }

  /** With the corrected rewrite, a sub-view name that is a word is recorded as exactly one space-separated name. */
  lemma SubviewNameIsOneName(name: string, spaces: string)
    requires IsNameWithSpaces(name, spaces)
    ensures RewriteIntended("> @" + name + spaces).subViewNames == [name]
    ensures Split(name, ' ') == [name]
  {
    RewriteSubviewForm(name, spaces);
    TrimSpaces(name, spaces);
    assert ' ' !in name;
    SplitWhole(name, ' ');
  }
}

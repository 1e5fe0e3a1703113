/**
 * The text form of an XML document as `XMLDocument::Serialize` writes it and
 * `XMLDocument::Deserialize` reads it, over element values.  The grammar is
 * the code's own simplified subset of start tags, end tags and attributes,
 * with no entity escaping.
 */
module XmlCodec {
  import opened Wrappers
  import opened Text
  import opened LineText

  datatype Node = Node(name: string, attributes: map<string, string>, text: string, children: seq<Node>)

  // Writing.

  function Tabs(n: nat): (s: string)
    ensures |s| == n && forall i | 0 <= i < n :: s[i] == '\t'
  {
    if n == 0 then "" else "\t" + Tabs(n - 1)
  }

  /** ` key="value"` for each attribute, in key order. */
  function AttributeText(attrs: map<string, string>, ks: seq<string>): string
    requires forall i | 0 <= i < |ks| :: ks[i] in attrs
  {
    if ks == [] then "" else " " + Field(ks[0], attrs[ks[0]]) + AttributeText(attrs, ks[1..])
  }

  function Field(key: string, value: string): string {
    key + "=\"" + value + "\""
  }

  function OpenText(n: Node): string {
    "<" + n.name + AttributeText(n.attributes, SortedKeys(n.attributes.Keys)) + ">"
  }

  function CloseText(n: Node): string {
    "</" + n.name + ">"
  }

  /** Multi-line text with `indentation` tabs before its first line and after every '\n', and no final '\n'. */
  function Indented(text: string, indentation: nat): string
  {
    var n := Tabs(indentation) + IndentLines(text, indentation);
    if |n| > 0 && n[|n| - 1] == '\n' then n[..|n| - 1] else n
  }

  function IndentLines(text: string, indentation: nat): string
  {
    if text == [] then ""
    else [text[0]] + (if text[0] == '\n' then Tabs(indentation) else "") + IndentLines(text[1..], indentation)
  }

  /** The lambda `formatMultiline`. */
  method FormatMultiline(text: string, indentation: nat) returns (n: string)
    ensures n == Indented(text, indentation)
  {
    n := "";
    var ind := 0;
    while ind < indentation
      invariant ind <= indentation && n == Tabs(ind)
    {
      n := n + "\t";
      ind := ind + 1;
      assert Tabs(ind - 1) + "\t" == Tabs(ind);
    }
    var i := 0;
    while i < |text|
      invariant i <= |text|
      invariant n + IndentLines(text[i..], indentation) == Tabs(indentation) + IndentLines(text, indentation)
    {
      var c := text[i];
      assert text[i..][1..] == text[i + 1..];
      ghost var before := n;
      n := n + [c];
      if c == '\n' {
        n := n + Tabs(indentation);
      }
      i := i + 1;
    }
    assert text[i..] == [];
    if |n| > 0 && n[|n| - 1] == '\n' {
      n := n[..|n| - 1];
    }
  }

  /** `Serialize` of one element at `indentation` tabs, children one level deeper. */
  function Serialize(n: Node, indentation: nat): (s: string)
    ensures |s| >= |CloseText(n)| && s[|s| - |CloseText(n)|..] == CloseText(n)
    decreases n, 1
  {
    var inline := Free(n.text, '\n');
    var textPart := if inline then n.text else "\n" + Indented(n.text, indentation + 1) + "\n";
    var childPart := if n.children == [] then "" else (if inline then "\n" else "") + ChildrenText(n.children, indentation + 1);
    var closeIndent := if !inline || n.children != [] then Tabs(indentation) else "";
    Tabs(indentation) + OpenText(n) + textPart + childPart + closeIndent + CloseText(n)
  }

  /** Each child serialized and followed by '\n'. */
  function ChildrenText(cs: seq<Node>, indentation: nat): (t: string)
    ensures cs == [] <==> t == ""
    ensures cs != [] ==> t[|t| - 1] == '\n'
    decreases cs, 0
  {
    if cs == [] then "" else Serialize(cs[0], indentation) + "\n" + ChildrenText(cs[1..], indentation)
  }

  // Reading.

  /** `std::getline(stream, out, delim)`: the text before the first `delim` and what follows it. */
  function GetLine(s: string, delim: char): (r: (string, string))
    ensures Free(r.0, delim)
    ensures |r.0| <= |s| && |r.1| <= |s|
    ensures r.1 == s[|s| - |r.1|..]
    ensures s == r.0 + r.1 || s == r.0 + [delim] + r.1
  {
    var p := Until(s, delim);
    if p == |s| then (s, "") else (s[..p], s[p + 1..])
  }

  /** The fields `while (std::getline(ss, field, ' '))` yields: an empty final field is not produced. */
  function Fields(s: string): seq<string>
    decreases |s|
  {
    if s == [] then []
    else
      var (f, rest) := GetLine(s, ' ');
      [f] + Fields(rest)
  }

  /** `istream::ignore(n, c)`: skip up to `n` characters, stopping after the first `c`. */
  function Ignore(s: string, n: nat, c: char): (r: string)
    ensures |r| <= |s|
  {
    if s == [] || n == 0 then s
    else if s[0] == c then s[1..]
    else Ignore(s[1..], n - 1, c)
  }

  /** One ` name="value"` field: the name runs to '=', the value lies between the next two '"'. */
  function Attribute(field: string): (string, string)
  {
    var (key, afterKey) := GetLine(field, '=');
    (key, GetLine(Ignore(afterKey, 64, '"'), '"').0)
  }

  /** The fields applied with `SetAttribute` in order: a later duplicate overwrites. */
  function SetAttributes(attrs: map<string, string>, fields: seq<string>): map<string, string>
    decreases fields
  {
    if fields == [] then attrs
    else
      var (k, v) := Attribute(fields[0]);
      SetAttributes(attrs[k := v], fields[1..])
  }

  /** The element a start tag's content (between '<' and '>') opens. */
  function OpenTag(content: string): Node
  {
    var (name, attrs) := GetLine(content, ' ');
    Node(name, SetAttributes(map[], Fields(attrs)), "", [])
  }

  /** One text character read into an element open `depth` deep, with `remaining` indentation tabs still to skip. */
  function AddChar(text: string, c: char, remaining: nat, depth: nat): (r: (string, nat))
    ensures r.0 == text || r.0 == text + [c]
  {
    if c == '\t' then
      if remaining == 0 then (if text != "" then text + "\t" else text, 0)
      else (text, remaining - 1)
    else
      var rem := if c == '\n' then depth else remaining;
      if (c == '\n' || c == ' ') && text == "" then (text, rem) else (text + [c], rem)
  }

  function Top(open: seq<Node>): Node
    requires open != []
  {
    open[|open| - 1]
  }

  /** `child` appended to the children of the innermost open element. */
  function Attach(open: seq<Node>, child: Node): (r: seq<Node>)
    requires open != []
    ensures |r| == |open| && r[..|r| - 1] == open[..|open| - 1]
    ensures Top(r).children == Top(open).children + [child]
  {
    open[..|open| - 1] + [Top(open).(children := Top(open).children + [child])]
  }

  /** The tree the document holds when reading stops with elements still open. */
  function Collapse(open: seq<Node>): Node
    requires open != []
    decreases |open|
  {
    if |open| == 1 then open[0] else Collapse(Attach(open[..|open| - 1], Top(open)))
  }

  /** A closed element loses one trailing '\n' of its text. */
  function Trimmed(n: Node): (r: Node)
    ensures r == n.(text := r.text)
    ensures r.text == n.text || (n.text == r.text + "\n")
  {
    if |n.text| > 0 && n.text[|n.text| - 1] == '\n' then n.(text := n.text[..|n.text| - 1]) else n
  }

  /** How reading ends: the root closed with text left over, an error (with the tree built so far), or never. */
  datatype Reading = Parsed(root: Node, rest: string) | Failed(partial: Option<Node>) | Diverges

  /** The outcome of one pass of the reading loop: stop with a result, or go on from a shorter suffix. */
  datatype Next = Stop(result: Reading) | Go(s: string, open: seq<Node>, remaining: nat)

  /**
   * One pass of the reading loop at a nonempty suffix `s`, with `open` the
   * elements started and not yet closed (outermost first) and `remaining`
   * the indentation tabs still to skip in the current line.
   */
  function Step(s: string, open: seq<Node>, remaining: nat): (n: Next)
    requires s != []
    ensures n.Go? ==> |n.s| < |s|
  {
    if open == [] && (s[0] == '\t' || s[0] == ' ' || s[0] == '\n') then Go(s[1..], open, remaining)
    else if open != [] && s[0] != '<' then
      var (text, rem) := AddChar(Top(open).text, s[0], remaining, |open|);
      Go(s[1..], open[..|open| - 1] + [Top(open).(text := text)], rem)
    else if |s| > 1 && s[1] == '/' then
      var (name, after) := GetLine(s[2..], '>');
      if open == [] then Stop(Failed(None))
      else if name != Top(open).name then Stop(Failed(Some(Collapse(open))))
      else if |open| == 1 then Stop(Parsed(Trimmed(Top(open)), after))
      else Go(after, Attach(open[..|open| - 1], Trimmed(Top(open))), remaining)
    else
      var (content, after) := GetLine(s[1..], '>');
      Go(after, open + [OpenTag(content)], |open| + 1)
  }

  /** The reading loop run to its end.  Once the input is exhausted the loop keeps reading end-of-file and never stops. */
  function Parse(s: string, open: seq<Node>, remaining: nat): Reading
    decreases |s|
  {
    if s == [] then Diverges
    else
      match Step(s, open, remaining)
      case Stop(r) => r
      case Go(s', open', remaining') => Parse(s', open', remaining')
  }

  /** `XMLDocument::Deserialize`: the reading loop over the stream, held as the suffix `s` still unread. */
  method Deserialize(input: string) returns (r: Reading)
    ensures r == Parse(input, [], 0)
  {
    var s := input;
    var open: seq<Node> := [];
    var remaining: nat := 0;
    while s != []
      invariant Parse(s, open, remaining) == Parse(input, [], 0)
      decreases |s|
    {
      var next := Step(s, open, remaining);
      if next.Stop? {
        return next.result;
      }
      s, open, remaining := next.s, next.open, next.remaining;
    }
    return Diverges;
  }

  // Round trip.

  predicate NameWritable(name: string) {
    Free(name, ' ') && Free(name, '>') && (name == [] || name[0] != '/')
  }

  predicate AttributesWritable(attrs: map<string, string>) {
    forall k | k in attrs :: Free(k, ' ') && Free(k, '>') && Free(k, '=') && Free(attrs[k], ' ') && Free(attrs[k], '>') && Free(attrs[k], '"')
  }

  /** Text the reader gives back: none, or one line on a childless element without tabs, '<' or a leading blank. */
  predicate TextWritable(n: Node) {
    n.text == [] || (n.children == [] && Free(n.text, '\n') && Free(n.text, '\t') && Free(n.text, '<') && n.text[0] != ' ')
  }

  /** The elements `Serialize` writes in a form `Deserialize` reads back unchanged. */
  predicate Writable(n: Node)
    decreases n
  {
    NameWritable(n.name) && AttributesWritable(n.attributes) && TextWritable(n)
    && forall i | 0 <= i < |n.children| :: Writable(n.children[i])
  }

  /** `GetLine` over text with the delimiter right after a delimiter-free `a`. */
  lemma GetLineAfter(a: string, c: char, b: string)
    requires Free(a, c)
    ensures GetLine(a + [c] + b, c) == (a, b)
  {
    UntilAfter(a, c, b);
    assert (a + [c] + b)[..|a|] == a;
    assert (a + [c] + b)[|a| + 1..] == b;
  }

  lemma {:induction false} AttributeOfField(k: string, v: string)
    requires Free(k, '=') && Free(v, '"')
    ensures Attribute(Field(k, v)) == (k, v)
  {
    var q := "\"" + v + "\"";
    assert Field(k, v) == k + ['='] + q;
    GetLineAfter(k, '=', q);
    assert q[1..] == v + ['"'] + [];
    assert Ignore(q, 64, '"') == v + ['"'] + [];
    GetLineAfter(v, '"', []);
  }

  lemma FieldFree(k: string, v: string, c: char)
    requires Free(k, c) && Free(v, c) && c != '=' && c != '"'
    ensures Free(Field(k, v), c)
  {
    var f := Field(k, v);
    forall i | 0 <= i < |f|
      ensures f[i] != c
    {
      if i < |k| {
        assert f[i] == k[i];
      } else if |k| + 1 < i < |k| + 2 + |v| {
        assert f[i] == v[i - |k| - 2];
      }
    }
  }

  lemma {:induction false} AttributeTextFree(attrs: map<string, string>, ks: seq<string>)
    requires forall i | 0 <= i < |ks| :: ks[i] in attrs
    requires AttributesWritable(attrs)
    ensures Free(AttributeText(attrs, ks), '>')
    decreases |ks|
  {
    if ks != [] {
      FieldFree(ks[0], attrs[ks[0]], '>');
      AttributeTextFree(attrs, ks[1..]);
      var f := Field(ks[0], attrs[ks[0]]);
      var r := AttributeText(attrs, ks[1..]);
      forall i | 0 <= i < 1 + |f| + |r|
        ensures AttributeText(attrs, ks)[i] != '>'
      {
        if 0 < i <= |f| {
          assert AttributeText(attrs, ks)[i] == f[i - 1];
        } else if i > |f| {
          assert AttributeText(attrs, ks)[i] == r[i - 1 - |f|];
        }
      }
    }
  }

  lemma AttributeTextCons(attrs: map<string, string>, ks: seq<string>)
    requires ks != [] && forall i | 0 <= i < |ks| :: ks[i] in attrs
    ensures AttributeText(attrs, ks) == [' '] + (Field(ks[0], attrs[ks[0]]) + AttributeText(attrs, ks[1..]))
  {
  }

  /** What follows the leading blank of the attribute text: the first field, then the rest of the text. */
  lemma AttributeTextTail(attrs: map<string, string>, ks: seq<string>)
    requires ks != [] && forall i | 0 <= i < |ks| :: ks[i] in attrs
    ensures AttributeText(attrs, ks)[0] == ' '
    ensures AttributeText(attrs, ks)[1..] == Field(ks[0], attrs[ks[0]]) + AttributeText(attrs, ks[1..])
  {
    AttributeTextCons(attrs, ks);
  }

  /** A field free of blanks followed by a blank is split off as the first field. */
  lemma FieldsCons(f: string, rest: string)
    requires Free(f, ' ')
    ensures Fields(f + [' '] + rest) == [f] + Fields(rest)
  {
    GetLineAfter(f, ' ', rest);
  }

  /** A non-empty text free of blanks is one field. */
  lemma FieldsOne(f: string)
    requires f != [] && Free(f, ' ')
    ensures Fields(f) == [f]
  {
    UntilAbsent(f, ' ');
    assert GetLine(f, ' ') == (f, "");
  }

  lemma SetAttributesCons(m: map<string, string>, f: string, fs: seq<string>)
    ensures SetAttributes(m, [f] + fs) == SetAttributes(m[Attribute(f).0 := Attribute(f).1], fs)
  {
    assert ([f] + fs)[1..] == fs;
  }

  lemma SetAttributesOne(m: map<string, string>, f: string)
    ensures SetAttributes(m, [f]) == m[Attribute(f).0 := Attribute(f).1]
  {
    assert [f][1..] == [];
  }

  /** The fields after the first blank of the attribute text set the attributes back one by one. */
  lemma {:induction false} FieldsOfAttributes(m: map<string, string>, attrs: map<string, string>, ks: seq<string>)
    requires ks != [] && forall i | 0 <= i < |ks| :: ks[i] in attrs
    requires AttributesWritable(attrs)
    ensures SetAttributes(m, Fields(AttributeText(attrs, ks)[1..])) == SetAll(m, attrs, ks)
    decreases |ks|
  {
    if |ks| == 1 {
      LastField(m, attrs, ks);
    } else {
      FieldsOfAttributes(m[ks[0] := attrs[ks[0]]], attrs, ks[1..]);
      NextField(m, attrs, ks);
    }
  }

  /** The attribute text of one attribute sets that attribute. */
  lemma LastField(m: map<string, string>, attrs: map<string, string>, ks: seq<string>)
    requires |ks| == 1 && ks[0] in attrs
    requires AttributesWritable(attrs)
    ensures SetAttributes(m, Fields(AttributeText(attrs, ks)[1..])) == SetAll(m, attrs, ks)
  {
    var k := ks[0];
    var f := Field(k, attrs[k]);
    var r := AttributeText(attrs, ks[1..]);
    calc {
      SetAttributes(m, Fields(AttributeText(attrs, ks)[1..]));
      { AttributeTextTail(attrs, ks); }
      SetAttributes(m, Fields(f + r));
      { assert r == []; PlusEmpty(r, f); }
      SetAttributes(m, Fields(f));
      { FieldFree(k, attrs[k], ' '); FieldsOne(f); }
      SetAttributes(m, [f]);
      { SetAttributesOne(m, f); AttributeOfField(k, attrs[k]); }
      m[k := attrs[k]];
      { assert ks[1..] == []; }
      SetAll(m, attrs, ks);
    }
  }

  /** The first field of a longer attribute text sets its attribute, and the rest carry on from there. */
  lemma NextField(m: map<string, string>, attrs: map<string, string>, ks: seq<string>)
    requires |ks| > 1 && forall i | 0 <= i < |ks| :: ks[i] in attrs
    requires AttributesWritable(attrs)
    requires SetAttributes(m[ks[0] := attrs[ks[0]]], Fields(AttributeText(attrs, ks[1..])[1..])) == SetAll(m[ks[0] := attrs[ks[0]]], attrs, ks[1..])
    ensures SetAttributes(m, Fields(AttributeText(attrs, ks)[1..])) == SetAll(m, attrs, ks)
  {
    var k := ks[0];
    var f := Field(k, attrs[k]);
    var r := AttributeText(attrs, ks[1..]);
    AttributeTextTail(attrs, ks);
    FieldFree(k, attrs[k], ' ');
    AttributeOfField(k, attrs[k]);
    AttributeTextTail(attrs, ks[1..]);
    HeadOf(r, f);
    calc {
      SetAttributes(m, Fields(f + r));
      { FieldsCons(f, r[1..]); }
      SetAttributes(m, [f] + Fields(r[1..]));
      { SetAttributesCons(m, f, Fields(r[1..])); }
      SetAttributes(m[k := attrs[k]], Fields(r[1..]));
    }
  }

  lemma SetAllSorted(attrs: map<string, string>)
    ensures SetAll(map[], attrs, SortedKeys(attrs.Keys)) == attrs
  {
    var ks := SortedKeys(attrs.Keys);
    var r := SetAll(map[], attrs, ks);
    SetAllCovers(map[], attrs, ks);
    forall x
      ensures x in r <==> x in attrs
    {
      assert x in ks <==> x in attrs.Keys;
    }
    forall x | x in r
      ensures r[x] == attrs[x]
    {
      assert x in ks;
    }
  }

  /** A start tag's content as written opens the element with its name and attributes. */
  lemma OpenTagOfContent(n: Node)
    requires NameWritable(n.name) && AttributesWritable(n.attributes)
    ensures OpenTag(n.name + AttributeText(n.attributes, SortedKeys(n.attributes.Keys))) == Node(n.name, n.attributes, "", [])
  {
    var ks := SortedKeys(n.attributes.Keys);
    var a := AttributeText(n.attributes, ks);
    if ks == [] {
      calc {
        OpenTag(n.name + a);
        { PlusEmpty(a, n.name); UntilAbsent(n.name, ' '); }
        OpenTag(n.name);
        { assert GetLine(n.name, ' ') == (n.name, []); SetAllSorted(n.attributes); }
        Node(n.name, n.attributes, "", []);
      }
    } else {
      calc {
        OpenTag(n.name + a);
        { AttributeTextTail(n.attributes, ks); HeadOf(a, n.name); GetLineAfter(n.name, ' ', a[1..]); }
        Node(n.name, SetAttributes(map[], Fields(a[1..])), "", []);
        { FieldsOfAttributes(map[], n.attributes, ks); SetAllSorted(n.attributes); }
        Node(n.name, n.attributes, "", []);
      }
    }
  }

  lemma ConcatFree(a: string, b: string, c: char)
    requires Free(a, c) && Free(b, c)
    ensures Free(a + b, c)
  {
    forall i | 0 <= i < |a + b|
      ensures (a + b)[i] != c
    {
      if i >= |a| {
        assert (a + b)[i] == b[i - |a|];
      }
    }
  }

  /** The content of the start tag `OpenText` writes. */
  function Content(n: Node): string {
    n.name + AttributeText(n.attributes, SortedKeys(n.attributes.Keys))
  }

  lemma ContentFree(n: Node)
    requires AttributesWritable(n.attributes) && Free(n.name, '>')
    ensures Free(Content(n), '>')
  {
    AttributeTextFree(n.attributes, SortedKeys(n.attributes.Keys));
    ConcatFree(n.name, AttributeText(n.attributes, SortedKeys(n.attributes.Keys)), '>');
  }

  lemma ContentStart(n: Node)
    requires NameWritable(n.name)
    ensures Content(n) == [] || Content(n)[0] != '/'
  {
    var ks := SortedKeys(n.attributes.Keys);
    if n.name == [] && ks != [] {
      AttributeTextCons(n.attributes, ks);
    }
  }

  lemma OpenTextShape(n: Node, s: string)
    ensures OpenText(n) + s == ['<'] + (Content(n) + ['>'] + s)
  {
    assert OpenText(n) == ['<'] + Content(n) + ['>'];
  }

  /** Reading a start tag at `x`: '<', a content free of '>', then '>'. */
  lemma {:induction false} OpenTagStep(x: string, content: string, s: string, open: seq<Node>, remaining: nat)
    requires x == ['<'] + (content + ['>'] + s)
    requires Free(content, '>') && (content == [] || content[0] != '/')
    ensures Parse(x, open, remaining) == Parse(s, open + [OpenTag(content)], |open| + 1)
  {
    assert x[1..] == content + ['>'] + s;
    GetLineAfter(content, '>', s);
    assert Step(x, open, remaining) == Go(s, open + [OpenTag(content)], |open| + 1);
  }

  /** A start tag opens one more element and resets the indentation to skip. */
  lemma OpenStep(n: Node, s: string, open: seq<Node>, remaining: nat)
    requires NameWritable(n.name) && AttributesWritable(n.attributes)
    ensures Parse(OpenText(n) + s, open, remaining) == Parse(s, open + [Node(n.name, n.attributes, "", [])], |open| + 1)
  {
    OpenTextShape(n, s);
    ContentFree(n);
    ContentStart(n);
    OpenTagStep(OpenText(n) + s, Content(n), s, open, remaining);
    OpenTagOfContent(n);
  }

  /** An end tag is read as '<', '/', then the name up to '>', and what follows. */
  lemma EndTagShape(name: string, s: string)
    requires Free(name, '>')
    ensures var x := "</" + name + ">" + s;
      |x| > 1 && x[0] == '<' && x[1] == '/' && GetLine(x[2..], '>') == (name, s)
  {
    var x := "</" + name + ">" + s;
    assert x[2..] == name + ['>'] + s;
    GetLineAfter(name, '>', s);
  }

  /** An end tag naming the innermost open element closes it. */
  lemma CloseStep(s: string, open: seq<Node>, remaining: nat)
    requires open != [] && Free(Top(open).name, '>')
    ensures Parse(CloseText(Top(open)) + s, open, remaining)
      == if |open| == 1 then Parsed(Trimmed(Top(open)), s) else Parse(s, Attach(open[..|open| - 1], Trimmed(Top(open))), remaining)
  {
    EndTagShape(Top(open).name, s);
  }

  /** An end tag that names another element stops reading with the tree built so far. */
  lemma CloseMismatch(name: string, s: string, open: seq<Node>, remaining: nat)
    requires open != [] && Free(name, '>') && name != Top(open).name
    ensures Parse("</" + name + ">" + s, open, remaining) == Failed(Some(Collapse(open)))
  {
    EndTagShape(name, s);
  }

  /** An end tag with no element open stops reading with no tree. */
  lemma CloseUnopened(name: string, s: string, remaining: nat)
    requires Free(name, '>')
    ensures Parse("</" + name + ">" + s, [], remaining) == Failed(None)
  {
    EndTagShape(name, s);
  }

  /** One text character that is not a tab, a line break or '<' is appended, unless it is a leading blank. */
  lemma CharStep(x: string, open: seq<Node>, remaining: nat)
    requires open != [] && x != [] && x[0] != '\n' && x[0] != '\t' && x[0] != '<'
    requires Top(open).text != [] || x[0] != ' '
    ensures Parse(x, open, remaining) == Parse(x[1..], open[..|open| - 1] + [Top(open).(text := Top(open).text + [x[0]])], remaining)
  {
    assert AddChar(Top(open).text, x[0], remaining, |open|) == (Top(open).text + [x[0]], remaining);
  }

  /** A single-line run of text goes into the innermost open element. */
  lemma {:induction false} TextStep(t: string, s: string, open: seq<Node>, remaining: nat)
    requires open != [] && Free(t, '\n') && Free(t, '\t') && Free(t, '<')
    requires Top(open).text != [] || t == [] || t[0] != ' '
    ensures Parse(t + s, open, remaining) == Parse(s, open[..|open| - 1] + [Top(open).(text := Top(open).text + t)], remaining)
    decreases |t|
  {
    var text := Top(open).text;
    if t == [] {
      PlusEmpty(t, s);
      PlusEmpty(t, text);
      assert open[..|open| - 1] + [Top(open)] == open;
    } else {
      var open' := open[..|open| - 1] + [Top(open).(text := text + [t[0]])];
      calc {
        Parse(t + s, open, remaining);
        { HeadOf(t, s); CharStep(t + s, open, remaining); }
        Parse(t[1..] + s, open', remaining);
        { assert Top(open').text == text + [t[0]];
          assert Free(t[1..], '\n') && Free(t[1..], '\t') && Free(t[1..], '<');
          TextStep(t[1..], s, open', remaining); }
        Parse(s, open'[..|open'| - 1] + [Top(open').(text := Top(open').text + t[1..])], remaining);
        { HeadOf(t, text); Retext(open, text + [t[0]], text + t); }
        Parse(s, open[..|open| - 1] + [Top(open).(text := text + t)], remaining);
      }
    }
  }

  /** Replacing the text of the innermost open element twice keeps only the second text. */
  lemma Retext(open: seq<Node>, a: string, b: string)
    requires open != []
    ensures var o := open[..|open| - 1] + [Top(open).(text := a)];
      o[..|o| - 1] + [Top(o).(text := b)] == open[..|open| - 1] + [Top(open).(text := b)]
  {
    var o := open[..|open| - 1] + [Top(open).(text := a)];
    assert o[..|o| - 1] == open[..|open| - 1];
  }

  /** An indentation count lowered by `k`, stopping at zero. */
  function Lowered(remaining: nat, k: nat): nat {
    if remaining >= k then remaining - k else 0
  }

  /** Indentation tabs before any text are skipped. */
  lemma {:induction false} TabsStep(k: nat, s: string, open: seq<Node>, remaining: nat)
    requires open != [] && Top(open).text == []
    ensures Parse(Tabs(k) + s, open, remaining) == Parse(s, open, Lowered(remaining, k))
  {
    if k == 0 {
      PlusEmpty(Tabs(k), s);
    } else {
      TabsStep(k - 1, s, open, Lowered(remaining, 1));
      MoreTabs(k, s, open, remaining);
    }
  }

  /** One more tab before `k - 1` of them lowers the count once more. */
  lemma MoreTabs(k: nat, s: string, open: seq<Node>, remaining: nat)
    requires k > 0 && open != [] && Top(open).text == []
    requires Parse(Tabs(k - 1) + s, open, Lowered(remaining, 1)) == Parse(s, open, Lowered(Lowered(remaining, 1), k - 1))
    ensures Parse(Tabs(k) + s, open, remaining) == Parse(s, open, Lowered(remaining, k))
  {
    var y := Tabs(k - 1) + s;
    calc {
      Parse(Tabs(k) + s, open, remaining);
      { TabsCons(k, s); }
      Parse("\t" + y, open, remaining);
      { TabStep(y, open, remaining); }
      Parse(y, open, Lowered(remaining, 1));
      Parse(s, open, Lowered(Lowered(remaining, 1), k - 1));
      { assert Lowered(Lowered(remaining, 1), k - 1) == Lowered(remaining, k); }
      Parse(s, open, Lowered(remaining, k));
    }
  }

  lemma TabsCons(k: nat, s: string)
    requires k > 0
    ensures Tabs(k) + s == "\t" + (Tabs(k - 1) + s)
  {
    assert Tabs(k) == "\t" + Tabs(k - 1);
  }

  /** A tab before any text only lowers the indentation count. */
  lemma TabStep(y: string, open: seq<Node>, remaining: nat)
    requires open != [] && Top(open).text == []
    ensures Parse("\t" + y, open, remaining) == Parse(y, open, Lowered(remaining, 1))
  {
    var x := "\t" + y;
    assert x[1..] == y;
    assert open[..|open| - 1] + [Top(open)] == open;
    assert Step(x, open, remaining) == Go(y, open, Lowered(remaining, 1));
  }

  /** A line break before any text is dropped and restarts the indentation count. */
  lemma NewlineStep(s: string, open: seq<Node>, remaining: nat)
    requires open != [] && Top(open).text == []
    ensures Parse("\n" + s, open, remaining) == Parse(s, open, |open|)
  {
    var x := "\n" + s;
    assert x[1..] == s;
    assert open[..|open| - 1] + [Top(open)] == open;
    assert Step(x, open, remaining) == Go(s, open, |open|);
  }

  /** What reading continues with once element `n` has been read inside `open`: the end of the document at the root. */
  function Closed(open: seq<Node>, n: Node, s: string, remaining: nat): Reading {
    if open == [] then Parsed(n, s) else Parse(s, Attach(open, n), remaining)
  }

  /** The indentation count left once `n`, written `depth` deep, has been read. */
  function RemainingAfter(n: Node, depth: nat): nat {
    if n.children == [] then depth + 1 else 1
  }

  lemma LeafShape(n: Node, d: nat, s: string)
    requires n.children == [] && Free(n.text, '\n')
    ensures Serialize(n, d) + s == Tabs(d) + (OpenText(n) + (n.text + (CloseText(n) + s)))
  {
  }

  lemma ParentShape(n: Node, d: nat, s: string)
    requires n.children != [] && n.text == []
    ensures Serialize(n, d) + s == Tabs(d) + (OpenText(n) + ("\n" + (ChildrenText(n.children, d + 1) + (Tabs(d) + (CloseText(n) + s)))))
  {
    var ct := ChildrenText(n.children, d + 1);
    assert Serialize(n, d) == Tabs(d) + OpenText(n) + n.text + ("\n" + ct) + Tabs(d) + CloseText(n);
    PlusEmpty(n.text, Tabs(d) + OpenText(n));
    Nest6(Tabs(d), OpenText(n), "\n", ct, Tabs(d), CloseText(n), s);
  }

  lemma ChildrenShape(cs: seq<Node>, d: nat, s: string)
    requires cs != []
    ensures ChildrenText(cs, d) + s == Serialize(cs[0], d) + ("\n" + (ChildrenText(cs[1..], d) + s))
  {
  }

  /** The indentation and start tag of `n` read `depth` deep. */
  lemma EnterStep(n: Node, d: nat, open: seq<Node>, remaining: nat, s: string)
    requires NameWritable(n.name) && AttributesWritable(n.attributes)
    requires |open| == d && (d > 0 ==> Top(open).text == [])
    ensures Parse(Tabs(d) + (OpenText(n) + s), open, remaining) == Parse(s, open + [Node(n.name, n.attributes, "", [])], d + 1)
  {
    if d == 0 {
      assert Tabs(d) + (OpenText(n) + s) == OpenText(n) + s;
    } else {
      TabsStep(d, OpenText(n) + s, open, remaining);
    }
    OpenStep(n, s, open, if d == 0 then remaining else if remaining >= d then remaining - d else 0);
  }

  /** The text and end tag of a childless element. */
  lemma LeafStep(n: Node, d: nat, open: seq<Node>, s: string)
    requires |open| == d && n.children == [] && Writable(n)
    ensures Parse(n.text + (CloseText(n) + s), open + [Node(n.name, n.attributes, "", [])], d + 1) == Closed(open, n, s, d + 1)
  {
    var open1 := open + [Node(n.name, n.attributes, "", [])];
    TextStep(n.text, CloseText(n) + s, open1, d + 1);
    assert open1[..|open1| - 1] == open;
    assert Top(open1).text + n.text == n.text;
    assert Top(open1).(text := n.text) == n;
    CloseStep(s, open + [n], d + 1);
    assert (open + [n])[..d] == open;
  }

  /** An element written `d` deep is read back whole and attached to the element it sits in. */
  lemma {:induction false} ElementStep(n: Node, d: nat, open: seq<Node>, remaining: nat, s: string)
    requires Writable(n) && |open| == d && (d > 0 ==> Top(open).text == [])
    ensures Parse(Serialize(n, d) + s, open, remaining) == Closed(open, n, s, RemainingAfter(n, d))
    decreases n, 2
  {
    if n.children == [] {
      LeafShape(n, d, s);
      EnterStep(n, d, open, remaining, n.text + (CloseText(n) + s));
      LeafStep(n, d, open, s);
    } else {
      var tail := ChildrenText(n.children, d + 1) + (Tabs(d) + (CloseText(n) + s));
      ParentShape(n, d, s);
      EnterStep(n, d, open, remaining, "\n" + tail);
      ParentStep(n, d, open, s);
    }
  }

  /** The line break, children, indentation and end tag of an element with children. */
  lemma {:induction false} ParentStep(n: Node, d: nat, open: seq<Node>, s: string)
    requires Writable(n) && n.children != [] && |open| == d
    ensures Parse("\n" + (ChildrenText(n.children, d + 1) + (Tabs(d) + (CloseText(n) + s))), open + [Node(n.name, n.attributes, "", [])], d + 1)
      == Closed(open, n, s, 1)
    decreases n, 1
  {
    var open1 := open + [Node(n.name, n.attributes, "", [])];
    var after := Tabs(d) + (CloseText(n) + s);
    NewlineStep(ChildrenText(n.children, d + 1) + after, open1, d + 1);
    ChildrenStep(n.children, d + 1, open1, d + 1, after);
    Rebuilt(n, open);
    TabsStep(d, CloseText(n) + s, open + [n], d + 1);
    CloseStep(s, open + [n], 1);
    assert (open + [n])[..d] == open;
  }

  /** The element opened for `n` with the children of `n` added is `n` again. */
  lemma Rebuilt(n: Node, open: seq<Node>)
    requires n.text == []
    ensures var open1 := open + [Node(n.name, n.attributes, "", [])];
      open1[..|open|] + [Top(open1).(children := Top(open1).children + n.children)] == open + [n]
  {
    var open1 := open + [Node(n.name, n.attributes, "", [])];
    assert open1[..|open|] == open;
    assert Top(open1).children + n.children == n.children;
  }

  lemma AttachThenExtend(open: seq<Node>, cs: seq<Node>)
    requires open != [] && cs != []
    ensures var open' := Attach(open, cs[0]);
      open'[..|open| - 1] + [Top(open').(children := Top(open').children + cs[1..])]
      == open[..|open| - 1] + [Top(open).(children := Top(open).children + cs)]
  {
    var open' := Attach(open, cs[0]);
    assert Top(open').children + cs[1..] == Top(open).children + cs;
  }

  /** Replacing the innermost open element by itself changes nothing. */
  lemma SameTop(open: seq<Node>)
    requires open != []
    ensures open[..|open| - 1] + [Top(open)] == open
  {
  }

  /** Children written `d` deep, each followed by a line break, are read back in order. */
  lemma {:induction false} ChildrenStep(cs: seq<Node>, d: nat, open: seq<Node>, remaining: nat, s: string)
    requires d >= 1 && |open| == d && Top(open).text == []
    requires forall i | 0 <= i < |cs| :: Writable(cs[i])
    ensures Parse(ChildrenText(cs, d) + s, open, remaining)
      == Parse(s, open[..d - 1] + [Top(open).(children := Top(open).children + cs)], if cs == [] then remaining else d)
    decreases cs, 0
  {
    if cs == [] {
      PlusEmpty(ChildrenText(cs, d), s);
      PlusEmpty(cs, Top(open).children);
      SameTop(open);
    } else {
      var rest := ChildrenText(cs[1..], d) + s;
      ChildrenShape(cs, d, s);
      ElementStep(cs[0], d, open, remaining, "\n" + rest);
      var open' := Attach(open, cs[0]);
      NewlineStep(rest, open', RemainingAfter(cs[0], d));
      ChildrenStep(cs[1..], d, open', d, s);
      AttachThenExtend(open, cs);
    }
  }

  /**
   * The round trip: a writable element serialized at the top level is
   * deserialized into the same element, whatever follows its end tag.
   */
  lemma DeserializeSerialized(n: Node, s: string)
    requires Writable(n)
    ensures Parse(Serialize(n, 0) + s, [], 0) == Parsed(n, s)
  {
    ElementStep(n, 0, [], 0, s);
  }
}

/**
 * The text form of an INI document: `@start`, then for each section in name
 * order a header line `[name]` followed by one `key=value` line per key in
 * key order, then `@end`.  Reading goes line by line and is described here as
 * a function over the lines, which the document class follows step by step.
 */
module IniText {
  import opened Wrappers
  import opened Text
  import opened LineText

  /** The keys of one section, and a whole document by section name. */
  type Keys = map<string, string>
  type Doc = map<string, Keys>

  function SerializeKeys(keys: Keys, ks: seq<string>): string
    requires forall i | 0 <= i < |ks| :: ks[i] in keys
  {
    if ks == [] then "" else ks[0] + "=" + keys[ks[0]] + "\n" + SerializeKeys(keys, ks[1..])
  }

  /** The key lines of one section, in key order. */
  function KeysText(keys: Keys): string
  {
    SerializeKeys(keys, SortedKeys(keys.Keys))
  }

  function SerializeSections(doc: Doc, names: seq<string>): string
    requires forall i | 0 <= i < |names| :: names[i] in doc
  {
    if names == [] then ""
    else "\n[" + names[0] + "]\n" + KeysText(doc[names[0]]) + SerializeSections(doc, names[1..])
  }

  /** `INIDocument::Serialize`. */
  function Serialize(doc: Doc): (s: string)
    ensures |s| >= 10 && s[..6] == "@start" && s[|s| - 4..] == "@end"
  {
    var body := SerializeSections(doc, SortedKeys(doc.Keys));
    var t := "@start" + body + "@end";
    assert t[..6] == "@start" && t[|t| - 4..] == "@end";
    t
  }

  /** The name a header line opens: after '[' up to the first ']', or to the end of the line. */
  function SectionName(line: string): (name: string)
    requires line != [] && line[0] == '['
    ensures Free(name, ']')
    ensures |name| < |line|
  {
    var p := Until(line, ']');
    if p == |line| then line[1..] else line[1..p]
  }

  /** A key line: the key up to the first '=', the value after it ("" when there is no '='). */
  function SplitKey(line: string): (kv: (string, string))
    ensures Free(kv.0, '=')
    ensures |kv.0| + |kv.1| <= |line|
  {
    var p := Until(line, '=');
    if p == |line| then (line, "") else (line[..p], line[p + 1..])
  }

  /** The outcome of reading: the sections read, and whether reading ended without error. */
  datatype Parsed = Parsed(doc: Doc, ok: bool)

  /**
   * Reading `lines` into `doc` with `current` as the open section: blank and
   * ';' lines are skipped, "@end" stops, "@start" is skipped, a header opens
   * (creating when absent) a section, and a key line sets a key of the open
   * section; a key line with no open section is an error that ends reading.
   */
  function Parse(lines: seq<string>, doc: Doc, current: Option<string>): (r: Parsed)
    requires current.Some? ==> current.value in doc
    ensures doc.Keys <= r.doc.Keys
    decreases |lines|
  {
    if lines == [] then Parsed(doc, true)
    else
      var line := lines[0];
      if line == [] || line[0] == ';' then Parse(lines[1..], doc, current)
      else if line == "@end" then Parsed(doc, true)
      else if line == "@start" then Parse(lines[1..], doc, current)
      else if line[0] == '[' then
        var name := SectionName(line);
        Parse(lines[1..], if name in doc then doc else doc[name := map[]], Some(name))
      else
        var (k, v) := SplitKey(line);
        match current
        case None => Parsed(doc, false)
        case Some(n) => Parse(lines[1..], doc[n := doc[n][k := v]], current)
  }

  /** Text that reads back as the same key: no '\n' or '=', and not starting like a header or comment. */
  predicate KeyWritable(k: string, v: string) {
    && Free(k, '\n') && Free(k, '=') && Free(v, '\n')
    && (k == [] || (k[0] != '[' && k[0] != ';'))
  }

  /** Every section name and key of `doc` survives a write and a read. */
  predicate Writable(doc: Doc) {
    && (forall n | n in doc :: Free(n, '\n') && Free(n, ']'))
    && (forall n, k | n in doc && k in doc[n] :: KeyWritable(k, doc[n][k]))
  }

  // The serialized text as lines.

  function KeyLines(keys: Keys, ks: seq<string>): (ls: seq<string>)
    requires forall i | 0 <= i < |ks| :: ks[i] in keys
    ensures |ls| == |ks|
  {
    if ks == [] then [] else [ks[0] + "=" + keys[ks[0]]] + KeyLines(keys, ks[1..])
  }

  function Header(n: string): string {
    "[" + n + "]"
  }

  function SectionKeyLines(keys: Keys): seq<string> {
    KeyLines(keys, SortedKeys(keys.Keys))
  }

  function SectionLines(doc: Doc, names: seq<string>): seq<string>
    requires forall i | 0 <= i < |names| :: names[i] in doc
  {
    if names == [] then []
    else ["", Header(names[0])] + SectionKeyLines(doc[names[0]]) + SectionLines(doc, names[1..])
  }

  lemma {:induction false} SerializeKeysJoin(keys: Keys, ks: seq<string>)
    requires forall i | 0 <= i < |ks| :: ks[i] in keys
    ensures SerializeKeys(keys, ks) == Join(KeyLines(keys, ks))
    decreases |ks|
  {
    if ks != [] {
      SerializeKeysJoin(keys, ks[1..]);
      var ls := KeyLines(keys, ks);
      assert ls[0] == ks[0] + "=" + keys[ks[0]] && ls[1..] == KeyLines(keys, ks[1..]);
    }
  }

  lemma HeadJoin(n: string, kl: seq<string>, rest: seq<string>)
    ensures Join(["", Header(n)] + kl + rest) == "\n[" + n + "]\n" + Join(kl) + Join(rest)
  {
    var head: seq<string> := ["", Header(n)];
    JoinAppend(head + kl, rest);
    JoinAppend(head, kl);
    assert head[1..][1..] == [];
    assert Join(head) == "\n[" + n + "]\n";
  }

  lemma {:induction false} SerializeSectionsJoin(doc: Doc, names: seq<string>)
    requires forall i | 0 <= i < |names| :: names[i] in doc
    ensures SerializeSections(doc, names) == Join(SectionLines(doc, names))
    decreases |names|
  {
    if names != [] {
      var keys := doc[names[0]];
      SerializeSectionsJoin(doc, names[1..]);
      SerializeKeysJoin(keys, SortedKeys(keys.Keys));
      HeadJoin(names[0], SectionKeyLines(keys), SectionLines(doc, names[1..]));
    }
  }

  lemma {:induction false} KeyLinesFree(keys: Keys, ks: seq<string>)
    requires forall i | 0 <= i < |ks| :: ks[i] in keys && KeyWritable(ks[i], keys[ks[i]])
    ensures forall i | 0 <= i < |ks| :: Free(KeyLines(keys, ks)[i], '\n')
    decreases |ks|
  {
    if ks != [] {
      KeyLinesFree(keys, ks[1..]);
      var ls := KeyLines(keys, ks);
      forall i | 0 <= i < |ks| ensures Free(ls[i], '\n') {
        if i > 0 {
          assert ls[i] == KeyLines(keys, ks[1..])[i - 1];
        }
      }
    }
  }

  lemma SectionKeyLinesFree(doc: Doc, n: string)
    requires n in doc && Writable(doc)
    ensures forall i | 0 <= i < |SectionKeyLines(doc[n])| :: Free(SectionKeyLines(doc[n])[i], '\n')
  {
    var keys := doc[n];
    KeyLinesFree(keys, SortedKeys(keys.Keys));
  }

  lemma ConcatFree(a: seq<string>, b: seq<string>)
    requires forall i | 0 <= i < |a| :: Free(a[i], '\n')
    requires forall i | 0 <= i < |b| :: Free(b[i], '\n')
    ensures forall i | 0 <= i < |a + b| :: Free((a + b)[i], '\n')
  {
    forall i | 0 <= i < |a + b| ensures Free((a + b)[i], '\n') {
      if i >= |a| { assert (a + b)[i] == b[i - |a|]; }
    }
  }

  lemma {:induction false} SectionLinesFree(doc: Doc, names: seq<string>)
    requires forall i | 0 <= i < |names| :: names[i] in doc
    requires Writable(doc)
    ensures forall i | 0 <= i < |SectionLines(doc, names)| :: Free(SectionLines(doc, names)[i], '\n')
    decreases |names|
  {
    if names != [] {
      var head: seq<string> := ["", Header(names[0])];
      assert Free(head[1], '\n') by {
        forall j | 0 <= j < |head[1]| ensures head[1][j] != '\n' {
          if 0 < j < |head[1]| - 1 { assert head[1][j] == names[0][j - 1]; }
        }
      }
      SectionLinesFree(doc, names[1..]);
      SectionKeyLinesFree(doc, names[0]);
      ConcatFree(head, SectionKeyLines(doc[names[0]]));
      ConcatFree(head + SectionKeyLines(doc[names[0]]), SectionLines(doc, names[1..]));
    }
  }

  // Reading the lines back.

  /** Sections `names` of `doc` placed one after another into `acc`. */
  function OpenAll(acc: Doc, doc: Doc, names: seq<string>): Doc
    requires forall i | 0 <= i < |names| :: names[i] in doc
    decreases |names|
  {
    if names == [] then acc else OpenAll(acc[names[0] := doc[names[0]]], doc, names[1..])
  }

  lemma {:induction false} OpenAllCovers(acc: Doc, doc: Doc, names: seq<string>)
    requires forall i | 0 <= i < |names| :: names[i] in doc
    ensures forall x :: x in OpenAll(acc, doc, names) <==> x in acc || x in names
    ensures forall x | x in names :: OpenAll(acc, doc, names)[x] == doc[x]
    ensures forall x | x in acc && x !in names :: OpenAll(acc, doc, names)[x] == acc[x]
    decreases |names|
  {
    if names != [] {
      OpenAllCovers(acc[names[0] := doc[names[0]]], doc, names[1..]);
    }
  }

  /** One key line read into the open section `n`. */
  lemma ParseKeyLine(k: string, v: string, rest: seq<string>, doc: Doc, n: string)
    requires n in doc && KeyWritable(k, v)
    ensures Parse([k + "=" + v] + rest, doc, Some(n)) == Parse(rest, doc[n := doc[n][k := v]], Some(n))
  {
    var line := k + "=" + v;
    assert line[|k|] == '=';
    assert Free("@end", '=') && Free("@start", '=');
    UntilAfter(k, '=', v);
    assert line[..|k|] == k && line[|k| + 1..] == v;
    assert ([line] + rest)[1..] == rest;
  }

  lemma {:induction false} ParseKeyLines(keys: Keys, ks: seq<string>, rest: seq<string>, doc: Doc, n: string)
    requires n in doc
    requires forall i | 0 <= i < |ks| :: ks[i] in keys && KeyWritable(ks[i], keys[ks[i]])
    ensures Parse(KeyLines(keys, ks) + rest, doc, Some(n)) == Parse(rest, doc[n := SetAll(doc[n], keys, ks)], Some(n))
    decreases |ks|
  {
    if ks != [] {
      var k := ks[0];
      assert KeyLines(keys, ks) + rest == [k + "=" + keys[k]] + (KeyLines(keys, ks[1..]) + rest);
      ParseKeyLine(k, keys[k], KeyLines(keys, ks[1..]) + rest, doc, n);
      var doc' := doc[n := doc[n][k := keys[k]]];
      ParseKeyLines(keys, ks[1..], rest, doc', n);
      assert doc'[n := SetAll(doc'[n], keys, ks[1..])] == doc[n := SetAll(doc[n], keys, ks)];
    } else {
      assert KeyLines(keys, ks) + rest == rest;
      assert doc[n := SetAll(doc[n], keys, ks)] == doc;
    }
  }

  /** A header line followed by the key lines of a section not read before. */
  lemma HeaderName(n: string)
    requires Free(n, ']')
    ensures Header(n) != [] && Header(n)[0] == '[' && SectionName(Header(n)) == n
  {
    var header := Header(n);
    assert header[1..] == n + [']'] + [];
    UntilAfter(n, ']', []);
    assert header[1..|n| + 1] == n;
  }

  /** A header line opens a section not read before, empty. */
  lemma ParseHeader(n: string, rest: seq<string>, acc: Doc, cur: Option<string>)
    requires Free(n, ']') && n !in acc
    requires cur.Some? ==> cur.value in acc
    ensures Parse(["", Header(n)] + rest, acc, cur) == Parse(rest, acc[n := map[]], Some(n))
  {
    var lines := ["", Header(n)] + rest;
    HeaderName(n);
    assert Header(n) != "@end" && Header(n) != "@start";
    assert lines[0] == "" && lines[1..][0] == Header(n) && lines[1..][1..] == rest;
  }

  /** The key lines of a section read into that section, open and still empty. */
  lemma ParseSectionKeys(keys: Keys, rest: seq<string>, acc: Doc, n: string)
    requires n in acc && acc[n] == map[]
    requires forall k | k in keys :: KeyWritable(k, keys[k])
    ensures Parse(SectionKeyLines(keys) + rest, acc, Some(n)) == Parse(rest, acc[n := keys], Some(n))
  {
    var ks := SortedKeys(keys.Keys);
    ParseKeyLines(keys, ks, rest, acc, n);
    SetAllCovers(map[], keys, ks);
    assert SetAll(map[], keys, ks) == keys;
  }

  lemma WritableSection(doc: Doc, n: string)
    requires n in doc && Writable(doc)
    ensures Free(n, ']')
    ensures forall k | k in doc[n] :: KeyWritable(k, doc[n][k])
  {
  }

  lemma UpdateTwice(acc: Doc, n: string, a: Keys, b: Keys)
    ensures acc[n := a][n := b] == acc[n := b]
  {
  }

  lemma ParseSection(doc: Doc, n: string, rest: seq<string>, acc: Doc, cur: Option<string>)
    requires n in doc && n !in acc && Writable(doc)
    requires cur.Some? ==> cur.value in acc
    ensures Parse(["", Header(n)] + SectionKeyLines(doc[n]) + rest, acc, cur) == Parse(rest, acc[n := doc[n]], Some(n))
  {
    var keys := doc[n];
    var kl := SectionKeyLines(keys);
    WritableSection(doc, n);
    assert ["", Header(n)] + kl + rest == ["", Header(n)] + (kl + rest);
    ParseHeader(n, kl + rest, acc, cur);
    ParseSectionKeys(keys, rest, acc[n := map[]], n);
    UpdateTwice(acc, n, map[], keys);
  }

  lemma {:induction false} ParseSections(doc: Doc, names: seq<string>, acc: Doc, cur: Option<string>)
    requires Writable(doc) && Ascending(names)
    requires forall i | 0 <= i < |names| :: names[i] in doc && names[i] !in acc
    requires cur.Some? ==> cur.value in acc
    ensures Parse(SectionLines(doc, names) + ["@end"], acc, cur) == Parsed(OpenAll(acc, doc, names), true)
    decreases |names|
  {
    if names == [] {
      assert SectionLines(doc, names) + ["@end"] == ["@end"];
    } else {
      var n := names[0];
      var keys := doc[n];
      var rest := SectionLines(doc, names[1..]) + ["@end"];
      assert SectionLines(doc, names) + ["@end"] == ["", Header(n)] + SectionKeyLines(keys) + rest;
      ParseSection(doc, n, rest, acc, cur);
      var acc' := acc[n := keys];
      forall i | 0 <= i < |names[1..]| ensures names[1..][i] in doc && names[1..][i] !in acc' {
        AscendingDistinct(names, 0, i + 1);
        assert names[1..][i] == names[i + 1];
      }
      ParseSections(doc, names[1..], acc', Some(n));
    }
  }

  lemma JoinCons(a: string, rest: seq<string>)
    ensures Join([a] + rest) == a + "\n" + Join(rest)
  {
    assert ([a] + rest)[0] == a && ([a] + rest)[1..] == rest;
  }

  lemma SectionLinesStart(doc: Doc)
    requires |doc| > 0
    ensures var sl := SectionLines(doc, SortedKeys(doc.Keys)); sl != [] && sl[0] == ""
  {
  }

  lemma SerializeJoin(doc: Doc)
    ensures Serialize(doc) == "@start" + Join(SectionLines(doc, SortedKeys(doc.Keys))) + "@end"
  {
    SerializeSectionsJoin(doc, SortedKeys(doc.Keys));
  }

  lemma StartJoin(sl: seq<string>)
    requires sl != [] && sl[0] == ""
    ensures "@start" + Join(sl) + "@end" == Join(["@start"] + sl[1..]) + "@end"
  {
    assert sl == [""] + sl[1..];
    JoinCons("", sl[1..]);
    JoinCons("@start", sl[1..]);
  }

  lemma SerializedText(doc: Doc)
    requires |doc| > 0
    ensures var sl := SectionLines(doc, SortedKeys(doc.Keys));
            sl != [] && sl[0] == "" && Serialize(doc) == Join(["@start"] + sl[1..]) + "@end"
  {
    SectionLinesStart(doc);
    SerializeJoin(doc);
    StartJoin(SectionLines(doc, SortedKeys(doc.Keys)));
  }

  lemma StartFree(sl: seq<string>)
    requires sl != []
    requires forall k | 0 <= k < |sl| :: Free(sl[k], '\n')
    ensures forall k | 0 <= k < |["@start"] + sl[1..]| :: Free((["@start"] + sl[1..])[k], '\n')
  {
    var body: seq<string> := ["@start"] + sl[1..];
    forall k | 0 <= k < |body| ensures Free(body[k], '\n') {
      if k > 0 { assert body[k] == sl[k]; }
    }
  }

  lemma StartLinesFree(doc: Doc)
    requires |doc| > 0 && Writable(doc)
    ensures var sl := SectionLines(doc, SortedKeys(doc.Keys));
            forall k | 0 <= k < |["@start"] + sl[1..]| :: Free((["@start"] + sl[1..])[k], '\n')
  {
    SectionLinesStart(doc);
    SectionLinesFree(doc, SortedKeys(doc.Keys));
    StartFree(SectionLines(doc, SortedKeys(doc.Keys)));
  }

  lemma LinesOfText(text: string, sl: seq<string>)
    requires sl != [] && text == Join(["@start"] + sl[1..]) + "@end"
    requires forall k | 0 <= k < |["@start"] + sl[1..]| :: Free((["@start"] + sl[1..])[k], '\n')
    ensures Lines(text) == ["@start"] + sl[1..] + ["@end"]
  {
    LinesOfJoin(["@start"] + sl[1..], "@end");
  }

  /** The lines of a non-empty document's text: "@start", the section lines after their leading blank, "@end". */
  lemma SerializedLines(doc: Doc)
    requires |doc| > 0 && Writable(doc)
    ensures var sl := SectionLines(doc, SortedKeys(doc.Keys));
            sl != [] && sl[0] == "" && Lines(Serialize(doc)) == ["@start"] + sl[1..] + ["@end"]
  {
    SerializedText(doc);
    StartLinesFree(doc);
    LinesOfText(Serialize(doc), SectionLines(doc, SortedKeys(doc.Keys)));
  }

  /** "@start" and the blank line after it are both skipped. */
  lemma ParseStart(sl: seq<string>)
    requires sl != [] && sl[0] == ""
    ensures Parse(["@start"] + sl[1..] + ["@end"], map[], None) == Parse(sl + ["@end"], map[], None)
  {
    var lines := ["@start"] + sl[1..] + ["@end"];
    assert lines[0] == "@start" && lines[1..] == sl[1..] + ["@end"];
    var tail := sl + ["@end"];
    assert tail[0] == "" && tail[1..] == sl[1..] + ["@end"];
  }

  lemma OpenAllSorted(doc: Doc)
    ensures OpenAll(map[], doc, SortedKeys(doc.Keys)) == doc
  {
    OpenAllCovers(map[], doc, SortedKeys(doc.Keys));
  }

  /** Reading back what `Serialize` writes gives the same document. */
  lemma DeserializeSerialized(doc: Doc)
    requires |doc| > 0 && Writable(doc)
    ensures Parse(Lines(Serialize(doc)), map[], None) == Parsed(doc, true)
  {
    var names := SortedKeys(doc.Keys);
    var sl := SectionLines(doc, names);
    SerializedLines(doc);
    ParseStart(sl);
    ParseSections(doc, names, map[], None);
    OpenAllSorted(doc);
  }

  /** A document with no sections is written as its two markers. */
  lemma SerializeEmpty(doc: Doc)
    requires doc == map[]
    ensures Serialize(doc) == "@start" + "@end"
  {
    assert SortedKeys(doc.Keys) == [];
  }

  /** A lone line that is not blank, a comment, a marker or a header reads as a key outside any section. */
  lemma KeyWithoutSection(line: string)
    requires line != [] && line[0] != ';' && line[0] != '[' && line != "@end" && line != "@start"
    ensures Parse([line], map[], None) == Parsed(map[], false)
  {
  }

  /** An empty document is written as the single line "@start@end", which reads as a key outside any section. */
  lemma EmptyDocumentRejected()
    ensures Serialize(map[]) == "@start@end"
    ensures Parse(Lines(Serialize(map[])), map[], None) == Parsed(map[], false)
  {
    var s := "@start@end";
    SerializeEmpty(map[]);
    assert "@start" + "@end" == s;
    LinesOfLine(s);
    assert |s| != |"@end"| && |s| != |"@start"|;
    KeyWithoutSection(s);
  }
}

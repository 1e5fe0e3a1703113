/**
 * `INIDocument`: sections by name, each a `Section` object holding its keys.
 * `GetSection` hands out a reference to the stored section (creating it when
 * absent), so key updates through that reference change the document.
 */
module IniDocument {
  import opened Wrappers
  import opened LineText
  import opened IniText

  class Section {
    var keys: Keys

    constructor ()
      ensures keys == map[]
    {
      keys := map[];
    }

    /** Sets a key, replacing any earlier value. */
    method SetKey(name: string, value: string)
      modifies this
      ensures keys == old(keys)[name := value]
    {
      keys := keys[name := value];
    }

    /** Removes a key; removing an absent key changes nothing. */
    method RemoveKey(name: string)
      modifies this
      ensures keys == old(keys) - {name}
    {
      keys := keys - {name};
    }

    /** The value of a key; `None` where `std::map::at` throws for an absent key. */
    function GetKey(name: string): (r: Option<string>)
      reads this
      ensures r.Some? <==> name in keys
      ensures r.Some? ==> r.value == keys[name]
    {
      if name in keys then Some(keys[name]) else None
    }
  }

  datatype IniError = KeyOutsideSection

  class Document {
    var sections: map<string, Section>

    /** Each name has a section object of its own. */
    ghost predicate Valid()
      reads this
    {
      forall a, b | a in sections && b in sections && a != b :: sections[a] != sections[b]
    }

    /** The document's contents as values. */
    ghost function Value(): Doc
      reads this, sections.Values
    {
      map n | n in sections :: sections[n].keys
    }

    constructor ()
      ensures Valid() && sections == map[]
    {
      sections := map[];
    }

    method RemoveSection(name: string)
      requires Valid()
      modifies this
      ensures Valid() && sections == old(sections) - {name}
      ensures Value() == old(Value()) - {name}
    {
      sections := sections - {name};
    }

    /**
     * Copies `section`'s keys into the section stored under `name`: into the
     * existing object when there is one, into a new one otherwise.
     */
    method SetSection(name: string, section: Section)
      requires Valid()
      modifies this, sections.Values
      ensures Valid() && sections.Keys == old(sections.Keys) + {name}
      ensures Value() == old(Value())[name := old(section.keys)]
      ensures name in old(sections) ==> sections == old(sections)
    {
      var copy := section.keys;
      if name in sections {
        sections[name].keys := copy;
      } else {
        var s := new Section();
        s.keys := copy;
        sections := sections[name := s];
      }
    }

    /** The section stored under `name`, created empty when absent. */
    method GetSection(name: string) returns (s: Section)
      requires Valid()
      modifies this
      ensures Valid() && name in sections && sections[name] == s
      ensures name in old(sections) ==> sections == old(sections)
      ensures name !in old(sections) ==> fresh(s) && s.keys == map[] && sections == old(sections)[name := s]
      ensures Value() == if name in old(sections) then old(Value()) else old(Value())[name := map[]]
    {
      if name in sections {
        s := sections[name];
      } else {
        s := new Section();
        sections := sections[name := s];
      }
    }

    /**
     * `Deserialize`: discard every section, then read the text line by line
     * as `Parse` describes; a key line before any header stops reading with
     * an error, keeping what was read so far.
     */
    method Deserialize(text: string) returns (o: Outcome<IniError>)
      modifies this
      ensures Valid()
      ensures forall n | n in sections :: fresh(sections[n])
      ensures Parse(Lines(text), map[], None) == Parsed(Value(), o.Pass?)
    {
      sections := map[];
      var lines := Lines(text);
      var current: Section? := null;
      ghost var cur: Option<string> := None;
      o := Pass;
      var i := 0;
      while i < |lines|
        invariant 0 <= i <= |lines| && o == Pass
        invariant Valid()
        invariant forall n | n in sections :: fresh(sections[n])
        invariant cur.Some? <==> current != null
        invariant cur.Some? ==> cur.value in sections && sections[cur.value] == current
        invariant Parse(lines[i..], Value(), cur) == Parse(lines, map[], None)
      {
        var line := lines[i];
        assert lines[i..][1..] == lines[i + 1..];
        if line == [] || line[0] == ';' {
          i := i + 1;
          continue;
        }
        if line == "@end" {
          return;
        } else if line == "@start" {
          i := i + 1;
          continue;
        }
        if line[0] == '[' {
          var name := SectionName(line);
          current := GetSection(name);
          cur := Some(name);
        } else {
          var (name, value) := SplitKey(line);
          if current == null {
            o := Fail(KeyOutsideSection);
            return;
          }
          ghost var before := Value();
          current.SetKey(name, value);
          assert Value() == before[cur.value := before[cur.value][name := value]];
        }
        i := i + 1;
      }
    }
  }
}

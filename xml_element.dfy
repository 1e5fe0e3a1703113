/**
 * `XMLDocument` and its `Element`s: named elements with attributes, text, an
 * ordered child list and a link to the parent that added them.
 */
module XmlElements {

  /** What `RemoveChild` does: report whether it removed a child, or loop forever. */
  datatype Removal = Done(removed: bool) | Diverges

  class Element {
    var name: string
    var text: string
    var attributes: map<string, string>
    var children: seq<Element>
    var parent: Element?

    constructor ()
      ensures name == "" && text == "" && attributes == map[] && children == [] && parent == null
    {
      name := "";
      text := "";
      attributes := map[];
      children := [];
      parent := null;
    }

    /** The value of an attribute; an absent one is inserted empty (`std::map::operator[]`). */
    method GetAttribute(key: string) returns (value: string)
      modifies this
      ensures key in old(attributes) ==> value == old(attributes)[key] && attributes == old(attributes)
      ensures key !in old(attributes) ==> value == "" && attributes == old(attributes)[key := ""]
      ensures key in attributes && attributes[key] == value
      ensures name == old(name) && text == old(text) && children == old(children) && parent == old(parent)
    {
      if key !in attributes {
        attributes := attributes[key := ""];
      }
      value := attributes[key];
    }

    method SetAttribute(key: string, value: string)
      modifies this
      ensures attributes == old(attributes)[key := value]
      ensures name == old(name) && text == old(text) && children == old(children) && parent == old(parent)
    {
      attributes := attributes[key := value];
    }

    method RemoveAttribute(key: string)
      modifies this
      ensures attributes == old(attributes) - {key}
      ensures name == old(name) && text == old(text) && children == old(children) && parent == old(parent)
    {
      attributes := attributes - {key};
    }

    method SetText(t: string)
      modifies this
      ensures text == t
      ensures name == old(name) && attributes == old(attributes) && children == old(children) && parent == old(parent)
    {
      text := t;
    }

    method SetName(n: string)
      modifies this
      ensures name == n
      ensures text == old(text) && attributes == old(attributes) && children == old(children) && parent == old(parent)
    {
      name := n;
    }

    /** The first child named `key`, or null when there is none. */
    method GetChild(key: string) returns (c: Element?)
      ensures c == null <==> forall j | 0 <= j < |children| :: children[j].name != key
      ensures c != null ==> exists i | 0 <= i < |children| ::
                children[i] == c && c.name == key && forall j | 0 <= j < i :: children[j].name != key
    {
      var i := 0;
      while i < |children|
        invariant 0 <= i <= |children|
        invariant forall j | 0 <= j < i :: children[j].name != key
      {
        if children[i].name == key {
          return children[i];
        }
        i := i + 1;
      }
      return null;
    }

    /** Every child named `key`, in order. */
    method GetChildren(key: string) returns (cs: seq<Element>)
      ensures cs == Select(children, key, true)
    {
      cs := [];
      var i := 0;
      while i < |children|
        invariant 0 <= i <= |children|
        invariant cs == Select(children[..i], key, true)
      {
        assert children[..i + 1][..i] == children[..i];
        if children[i].name == key {
          cs := cs + [children[i]];
        }
        i := i + 1;
      }
      assert children[..i] == children;
    }

    /**
     * `RemoveChild`: the loop only ever looks at the first child, so it removes
     * that child when it has the name, reports false on an empty list, and
     * otherwise never ends.
     */
    method RemoveChild(key: string) returns (r: Removal)
      modifies this
      ensures r == Done(false) <==> old(children) == []
      ensures r == Done(true) <==> old(children) != [] && old(children)[0].name == key
      ensures r == Done(true) ==> children == old(children)[1..]
      ensures r != Done(true) ==> children == old(children)
      ensures name == old(name) && text == old(text) && attributes == old(attributes) && parent == old(parent)
    {
      if children == [] {
        return Done(false);
      }
      if children[0].name == key {
        children := children[1..];
        return Done(true);
      }
      return Diverges;
    }

    /** Removes every child named `key`, keeping the others in order. */
    method RemoveChildren(key: string) returns (removedAny: bool)
      modifies this
      ensures children == old(Select(children, key, false))
      ensures removedAny <==> old(AnyNamed(children, key))
      ensures name == old(name) && text == old(text) && attributes == old(attributes) && parent == old(parent)
    {
      var kept;
      kept, removedAny := Unnamed(children, key);
      children := kept;
    }

    /** The loop of `RemoveChildren`: the elements not named `key`, in order, and whether any was. */
    static method Unnamed(all: seq<Element>, key: string) returns (kept: seq<Element>, removedAny: bool)
      ensures kept == Select(all, key, false)
      ensures removedAny <==> AnyNamed(all, key)
    {
      kept := [];
      removedAny := false;
      var i := 0;
      while i < |all|
        invariant 0 <= i <= |all|
        invariant kept == Select(all[..i], key, false)
        invariant removedAny <==> exists j | 0 <= j < i :: all[j].name == key
      {
        assert all[..i + 1][..i] == all[..i];
        if all[i].name == key {
          removedAny := true;
        } else {
          kept := kept + [all[i]];
        }
        i := i + 1;
      }
      assert all[..i] == all;
    }

    /** Appends a new, empty child named `key` whose parent is this element. */
    method AddChild(key: string) returns (e: Element)
      modifies this
      ensures fresh(e)
      ensures e.name == key && e.text == "" && e.attributes == map[] && e.children == [] && e.parent == this
      ensures children == old(children) + [e]
      ensures name == old(name) && text == old(text) && attributes == old(attributes) && parent == old(parent)
    {
      e := new Element();
      e.name := key;
      e.parent := this;
      children := children + [e];
    }
  }

  /** Some element of `cs` is named `key`. */
  ghost predicate AnyNamed(cs: seq<Element>, key: string)
    reads set c | c in cs
  {
    exists j | 0 <= j < |cs| :: cs[j].name == key
  }

  /** The elements of `cs` whose name is `key` (when `named`) or is not (otherwise), in order. */
  ghost function Select(cs: seq<Element>, key: string, named: bool): (r: seq<Element>)
    reads set c | c in cs
    ensures |r| <= |cs|
    ensures forall x | x in r :: x in cs && (x.name == key) == named
  {
    if cs == [] then []
    else
      var last := cs[|cs| - 1];
      Select(cs[..|cs| - 1], key, named) + (if (last.name == key) == named then [last] else [])
  }

  /** Every element of `cs` is selected on exactly one side. */
  lemma {:induction false} SelectSplits(cs: seq<Element>, key: string, x: Element)
    requires x in cs
    ensures x in Select(cs, key, x.name == key)
    decreases |cs|
  {
    if cs[|cs| - 1] != x {
      assert x in cs[..|cs| - 1];
      SelectSplits(cs[..|cs| - 1], key, x);
    }
  }

  /** The two sides together are exactly as long as the list. */
  lemma {:induction false} SelectSizes(cs: seq<Element>, key: string)
    ensures |Select(cs, key, true)| + |Select(cs, key, false)| == |cs|
    decreases |cs|
  {
    if cs != [] {
      SelectSizes(cs[..|cs| - 1], key);
    }
  }

  class XmlDocument {
    var root: Element?

    /** A new document holds a single empty element named "root". */
    constructor ()
      ensures root != null && fresh(root)
      ensures root.name == "root" && root.text == "" && root.attributes == map[]
      ensures root.children == [] && root.parent == null
    {
      var r := new Element();
      r.name := "root";
      root := r;
    }
  }
}

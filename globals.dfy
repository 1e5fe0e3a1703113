/**
 * `GlobalVar`: a setting held as text.  It is written as the text followed by
 * the two characters '\' '#', and read back up to the first '\' that is
 * immediately followed by '#' (or to the end of the input).
 */
module Globals {

  /** What `Deserialize` leaves in the variable, and the input it leaves unread. */
  datatype Read = Read(value: string, rest: string)

  /** `GlobalVar::Serialize`. */
  function Serialize(value: string): (s: string)
    ensures |s| == |value| + 2 && s[..|value|] == value && s[|value|..] == "\\#"
  {
    value + "\\#"
  }

  /** `s` holds a '\' directly followed by '#'. */
  predicate HasTerminator(s: string) {
    exists i | 0 <= i < |s| - 1 :: s[i] == '\\' && s[i + 1] == '#'
  }

  /**
   * Reading character by character: a '\' whose next character is '#' ends the
   * value, the '\' is consumed and the '#' is left unread; anything else,
   * including a '\' at the very end, is appended.
   */
  function Scan(s: string): (r: Read)
    ensures |r.value| <= |s| && r.value == s[..|r.value|]
    ensures |r.value| + |r.rest| <= |s|
    decreases |s|
  {
    if s == [] then Read("", "")
    else if s[0] == '\\' && |s| > 1 && s[1] == '#' then Read("", s[1..])
    else
      var r := Scan(s[1..]);
      Read([s[0]] + r.value, r.rest)
  }

  class GlobalVar {
    var value: string

    constructor ()
      ensures value == ""
    {
      value := "";
    }

    /** `GlobalVar::Deserialize`: returns the input left unread. */
    method Deserialize(input: string) returns (rest: string)
      modifies this
      ensures Read(value, rest) == Scan(input)
    {
      value := "";
      var i := 0;
      while i < |input|
        invariant 0 <= i <= |input|
        invariant Scan(input).value == value + Scan(input[i..]).value
        invariant Scan(input).rest == Scan(input[i..]).rest
        decreases |input| - i
      {
        var now := input[i];
        if now == '\\' && i + 1 < |input| && input[i + 1] == '#' {
          rest := input[i + 1..];
          ScanEnds(input[i..]);
          return;
        }
        ScanAppends(value, input[i..]);
        assert input[i..][1..] == input[i + 1..];
        value := value + [now];
        i := i + 1;
      }
      rest := "";
      assert input[i..] == [];
    }
  }

  /** `Scan` stops at a terminator, leaving its '#' unread. */
  lemma ScanEnds(s: string)
    requires |s| > 1 && s[0] == '\\' && s[1] == '#'
    ensures Scan(s).value == "" && Scan(s).rest == s[1..]
  {
  }

  /** Anything but a terminator is appended to what was read so far. */
  lemma ScanAppends(read: string, s: string)
    requires s != [] && !(s[0] == '\\' && |s| > 1 && s[1] == '#')
    ensures read + Scan(s).value == (read + [s[0]]) + Scan(s[1..]).value
    ensures Scan(s).rest == Scan(s[1..]).rest
  {
    var r := Scan(s[1..]);
    assert Scan(s) == Read([s[0]] + r.value, r.rest);
    Regroup(read, [s[0]], r.value);
  }

  lemma Regroup(a: string, b: string, c: string)
    ensures a + (b + c) == (a + b) + c
  {
  }

  lemma NoTerminatorAt(s: string, i: int)
    requires !HasTerminator(s) && 0 <= i < |s| - 1
    ensures !(s[i] == '\\' && s[i + 1] == '#')
  {
  }

  lemma NoTerminatorTail(s: string)
    requires !HasTerminator(s) && s != []
    ensures !HasTerminator(s[1..])
  {
    forall i | 0 <= i < |s[1..]| - 1 ensures !(s[1..][i] == '\\' && s[1..][i + 1] == '#') {
      NoTerminatorAt(s, i + 1);
    }
  }

  /** A value without the terminator reads back whole; the '#' of the terminator is left unread. */
  lemma {:induction false} ScanSerialized(value: string, after: string)
    requires !HasTerminator(value)
    ensures Scan(Serialize(value) + after) == Read(value, "#" + after)
    decreases |value|
  {
    var s := Serialize(value) + after;
    if value == [] {
      assert s == "\\#" + after;
      assert s[1..] == "#" + after;
    } else {
      assert s[1..] == Serialize(value[1..]) + after;
      NoTerminatorTail(value);
      ScanSerialized(value[1..], after);
      if |value| > 1 {
        NoTerminatorAt(value, 0);
        assert s[1] == value[1];
      } else {
        assert s[1] == '\\';
      }
      assert value == [value[0]] + value[1..];
    }
  }

  /** A value holding the terminator is read back cut short before its first occurrence. */
  lemma ValueTruncated(prefix: string, tail: string)
    requires !HasTerminator(prefix)
    ensures Scan(Serialize(prefix + "\\#" + tail)).value == prefix
  {
    assert Serialize(prefix + "\\#" + tail) == Serialize(prefix) + (tail + "\\#");
    ScanSerialized(prefix, tail + "\\#");
  }

  /** `Globals::Get`: the table of named variables. */
  class Globals {
    var vars: map<string, GlobalVar>

    constructor ()
      ensures vars == map[]
    {
      vars := map[];
    }

    /** The variable named `name`, created empty when absent. */
    method Get(name: string) returns (v: GlobalVar)
      modifies this
      ensures name in vars && vars[name] == v
      ensures name in old(vars) ==> vars == old(vars) && v.value == old(v.value)
      ensures name !in old(vars) ==> fresh(v) && v.value == "" && vars == old(vars)[name := v]
    {
      if name in vars {
        v := vars[name];
      } else {
        v := new GlobalVar();
        vars := vars[name := v];
      }
    }
  }
}

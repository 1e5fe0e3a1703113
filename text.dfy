/**
 * Strings and sequences as the C++ standard library treats them:
 * `std::string` ordering (the key order of every `std::map<std::string, ...>`),
 * the ascending key sequence a map iterates in, and occurrence counting.
 */
module Text {

  /** `a < b` for `std::string`: lexicographic on character codes, a proper prefix first. */
  predicate Below(a: string, b: string)
    decreases |a|
  {
    if |a| == 0 then |b| > 0
    else if |b| == 0 then false
    else if a[0] != b[0] then a[0] < b[0]
    else Below(a[1..], b[1..])
  }

  lemma {:induction false} BelowIrreflexive(a: string)
    ensures !Below(a, a)
    decreases |a|
  {
    if |a| > 0 {
      BelowIrreflexive(a[1..]);
    }
  }

  lemma {:induction false} BelowTransitive(a: string, b: string, c: string)
    requires Below(a, b) && Below(b, c)
    ensures Below(a, c)
    decreases |a|
  {
    if |a| > 0 && a[0] == b[0] && b[0] == c[0] {
      BelowTransitive(a[1..], b[1..], c[1..]);
    }
  }

  lemma {:induction false} BelowTotal(a: string, b: string)
    requires a != b
    ensures Below(a, b) || Below(b, a)
    decreases |a|
  {
    if |a| > 0 && |b| > 0 && a[0] == b[0] {
      BelowTotal(a[1..], b[1..]);
    }
  }

  lemma BelowAsymmetric(a: string, b: string)
    requires Below(a, b)
    ensures !Below(b, a)
  {
    if Below(b, a) {
      BelowTransitive(a, b, a);
      BelowIrreflexive(a);
    }
  }

  /** `m` is the first key of `s` in `std::string` order. */
  predicate IsLeast(m: string, s: set<string>) {
    m in s && forall x | x in s :: x == m || Below(m, x)
  }

  lemma {:induction false} LeastExists(s: set<string>)
    requires s != {}
    ensures exists m :: IsLeast(m, s)
    decreases |s|
  {
    var x :| x in s;
    if s == {x} {
      assert IsLeast(x, s);
    } else {
      LeastExists(s - {x});
      var m :| IsLeast(m, s - {x});
      if Below(x, m) {
        forall y | y in s && y != x ensures Below(x, y) {
          if y != m {
            BelowTransitive(x, m, y);
          }
        }
        assert IsLeast(x, s);
      } else {
        BelowTotal(x, m);
        assert IsLeast(m, s);
      }
    }
  }

  lemma LeastUnique(s: set<string>, m: string, m': string)
    requires IsLeast(m, s) && IsLeast(m', s)
    ensures m == m'
  {
    if m != m' {
      BelowAsymmetric(m, m');
    }
  }

  /** The first key of a non-empty key set. */
  function Least(s: set<string>): (m: string)
    requires s != {}
    ensures IsLeast(m, s)
  {
    LeastExists(s);
    assert forall m, m' | IsLeast(m, s) && IsLeast(m', s) :: m == m' by {
      forall m, m' | IsLeast(m, s) && IsLeast(m', s) ensures m == m' {
        LeastUnique(s, m, m');
      }
    }
    var m :| IsLeast(m, s);
    m
  }

  /** Strictly ascending in `std::string` order (so also free of repeats). */
  predicate Ascending(ks: seq<string>) {
    forall i, j | 0 <= i < j < |ks| :: Below(ks[i], ks[j])
  }

  /** The order in which a `std::map<std::string, V>` with key set `s` is iterated. */
  function SortedKeys(s: set<string>): (ks: seq<string>)
    ensures Ascending(ks)
    ensures |ks| == |s|
    ensures forall k :: k in ks <==> k in s
    decreases |s|
  {
    if s == {} then []
    else
      var m := Least(s);
      var rest := SortedKeys(s - {m});
      assert forall j | 0 <= j < |rest| :: Below(m, rest[j]) by {
        forall j | 0 <= j < |rest| ensures Below(m, rest[j]) {
          assert rest[j] in s - {m};
        }
      }
      [m] + rest
  }

  lemma AscendingDistinct(ks: seq<string>, i: int, j: int)
    requires Ascending(ks)
    requires 0 <= i < |ks| && 0 <= j < |ks| && i != j
    ensures ks[i] != ks[j]
  {
    if i < j {
      if ks[i] == ks[j] { BelowIrreflexive(ks[i]); }
    } else {
      if ks[i] == ks[j] { BelowIrreflexive(ks[i]); }
    }
  }

  /** Number of occurrences of `x` in `s`. */
  function Count<T(==)>(x: T, s: seq<T>): (n: nat)
    ensures n <= |s|
    ensures n == 0 <==> x !in s
  {
    if s == [] then 0
    else (if s[0] == x then 1 else 0) + Count(x, s[1..])
  }

  lemma {:induction false} CountAppend<T>(x: T, a: seq<T>, b: seq<T>)
    ensures Count(x, a + b) == Count(x, a) + Count(x, b)
    decreases |a|
  {
    if a == [] {
      assert a + b == b;
    } else {
      assert (a + b)[1..] == a[1..] + b;
      CountAppend(x, a[1..], b);
    }
  }

  lemma CountSnoc<T>(x: T, s: seq<T>, y: T)
    ensures Count(x, s + [y]) == Count(x, s) + (if x == y then 1 else 0)
  {
    CountAppend(x, s, [y]);
    assert [y][1..] == [];
  }

  /** Counting over one more element of a prefix. */
  lemma CountPrefix<T>(x: T, s: seq<T>, j: nat)
    requires j < |s|
    ensures Count(x, s[..j + 1]) == Count(x, s[..j]) + (if x == s[j] then 1 else 0)
  {
    assert s[..j + 1] == s[..j] + [s[j]];
    CountSnoc(x, s[..j], s[j]);
  }

  /** `n` copies of `x` in a row. */
  function Copies<T>(x: T, n: nat): (s: seq<T>)
    ensures |s| == n
    ensures forall i | 0 <= i < n :: s[i] == x
  {
    if n == 0 then [] else Copies(x, n - 1) + [x]
  }

  /** Concatenation of a sequence of sequences, in order. */
  function Flatten<T>(ss: seq<seq<T>>): (s: seq<T>)
  {
    if ss == [] then [] else Flatten(ss[..|ss| - 1]) + ss[|ss| - 1]
  }

  lemma FlattenSnoc<T>(ss: seq<seq<T>>, t: seq<T>)
    ensures Flatten(ss + [t]) == Flatten(ss) + t
  {
    assert (ss + [t])[..|ss|] == ss;
  }

  /** The keys `ks` of `keys` set one after another over `m`. */
  function SetAll(m: map<string, string>, keys: map<string, string>, ks: seq<string>): map<string, string>
    requires forall i | 0 <= i < |ks| :: ks[i] in keys
    decreases |ks|
  {
    if ks == [] then m else SetAll(m[ks[0] := keys[ks[0]]], keys, ks[1..])
  }

  lemma {:induction false} SetAllCovers(m: map<string, string>, keys: map<string, string>, ks: seq<string>)
    requires forall i | 0 <= i < |ks| :: ks[i] in keys
    ensures forall x :: x in SetAll(m, keys, ks) <==> x in m || x in ks
    ensures forall x | x in ks :: SetAll(m, keys, ks)[x] == keys[x]
    ensures forall x | x in m && x !in ks :: SetAll(m, keys, ks)[x] == m[x]
    decreases |ks|
  {
    if ks != [] {
      SetAllCovers(m[ks[0] := keys[ks[0]]], keys, ks[1..]);
    }
  }

  /** Concatenation with an empty sequence on either side. */
  lemma PlusEmpty<T>(e: seq<T>, s: seq<T>)
    requires e == []
    ensures e + s == s && s + e == s
  {
    assert e + s == s;
    assert s + e == s;
  }

  /** Splitting the first element off a concatenation, and putting it back. */
  lemma HeadOf<T>(t: seq<T>, s: seq<T>)
    requires t != []
    ensures (t + s)[0] == t[0] && (t + s)[1..] == t[1..] + s
    ensures s + [t[0]] + t[1..] == s + t
  {
    assert (t + s)[1..] == t[1..] + s;
    assert s + [t[0]] + t[1..] == s + t;
  }

  /** A tail joined to the last of three pieces. */
  lemma Regroup4<T>(a: seq<T>, b: seq<T>, c: seq<T>, d: seq<T>)
    ensures a + b + c + d == a + b + (c + d)
  {
  }

  /** Six pieces and a tail, regrouped to the right. */
  lemma Nest6<T>(a: seq<T>, b: seq<T>, c: seq<T>, d: seq<T>, e: seq<T>, f: seq<T>, s: seq<T>)
    ensures a + b + (c + d) + e + f + s == a + (b + (c + (d + (e + (f + s)))))
  {
  }
}

module LineText {
  import opened Text

  /** Position of the first `c` in `s`, or `|s|` when there is none (`find_first_of`). */
  function Until(s: string, c: char): (i: nat)
    ensures i <= |s|
    ensures forall j | 0 <= j < i :: s[j] != c
    ensures i < |s| ==> s[i] == c
  {
    if s == [] || s[0] == c then 0 else 1 + Until(s[1..], c)
  }

  predicate Free(s: string, c: char) {
    forall i | 0 <= i < |s| :: s[i] != c
  }

  lemma UntilAbsent(s: string, c: char)
    requires Free(s, c)
    ensures Until(s, c) == |s|
  {
  }

  lemma {:induction false} UntilAfter(a: string, c: char, b: string)
    requires Free(a, c)
    ensures Until(a + [c] + b, c) == |a|
    decreases |a|
  {
    if a != [] {
      assert (a + [c] + b)[1..] == a[1..] + [c] + b;
      UntilAfter(a[1..], c, b);
    }
  }

  /** `k` is the first position of `c` in `s` when everything before it differs from `c` and `k` holds `c` or is the end. */
  lemma UntilIs(s: string, c: char, k: nat)
    requires k <= |s| && (forall j | 0 <= j < k :: s[j] != c) && (k < |s| ==> s[k] == c)
    ensures Until(s, c) == k
  {
  }

  /** Searching a concatenation: the first `c` lies in `a`, or else it is searched for in `b`. */
  lemma {:induction false} UntilConcat(a: string, b: string, c: char)
    ensures Until(a + b, c) == if Until(a, c) < |a| then Until(a, c) else |a| + Until(b, c)
    decreases |a|
  {
    if a != [] && a[0] != c {
      assert (a + b)[1..] == a[1..] + b;
      UntilConcat(a[1..], b, c);
    } else if a == [] {
      assert a + b == b;
    }
  }

  /**
   * The lines `while (std::getline(stream, line))` reads: split at each '\n';
   * a final '\n' does not start an extra empty line, and empty input has none.
   */
  function Lines(s: string): (ls: seq<string>)
    ensures forall k | 0 <= k < |ls| :: Free(ls[k], '\n')
    decreases |s|
  {
    if s == [] then []
    else
      var n := Until(s, '\n');
      [s[..n]] + (if n == |s| then [] else Lines(s[n + 1..]))
  }

  /** Each line written followed by '\n'. */
  function Join(ls: seq<string>): string
  {
    if ls == [] then "" else ls[0] + "\n" + Join(ls[1..])
  }

  lemma {:induction false} JoinAppend(a: seq<string>, b: seq<string>)
    ensures Join(a + b) == Join(a) + Join(b)
    decreases |a|
  {
    if a == [] {
      assert a + b == b;
    } else {
      assert (a + b)[1..] == a[1..] + b;
      JoinAppend(a[1..], b);
    }
  }

  /** Text without a '\n' is read as a single line. */
  lemma LinesOfLine(s: string)
    requires s != [] && Free(s, '\n')
    ensures Lines(s) == [s]
  {
    UntilAbsent(s, '\n');
    assert s[..|s|] == s;
  }

  /** A line ended by '\n' is read as one line, and reading goes on after it. */
  lemma LinesCons(a: string, tail: string)
    requires Free(a, '\n')
    ensures Lines(a + "\n" + tail) == [a] + Lines(tail)
  {
    var s := a + "\n" + tail;
    UntilAfter(a, '\n', tail);
    assert s[..|a|] == a;
    assert s[|a| + 1..] == tail;
  }

  /**
   * Reading back lines written one per '\n', followed by a last unterminated
   * line, gives exactly those lines.
   */
  lemma {:induction false} LinesOfJoin(ls: seq<string>, last: string)
    requires forall k | 0 <= k < |ls| :: Free(ls[k], '\n')
    requires Free(last, '\n') && last != []
    ensures Lines(Join(ls) + last) == ls + [last]
    decreases |ls|
  {
    if ls == [] {
      PlusEmpty(Join(ls), last);
      PlusEmpty(ls, [last]);
      LinesOfLine(last);
    } else {
      var tail := Join(ls[1..]) + last;
      calc {
        Lines(Join(ls) + last);
        { assert Join(ls) == ls[0] + "\n" + Join(ls[1..]); Regroup4(ls[0], "\n", Join(ls[1..]), last); }
        Lines(ls[0] + "\n" + tail);
        { LinesCons(ls[0], tail); }
        [ls[0]] + Lines(tail);
        { LinesOfJoin(ls[1..], last); }
        [ls[0]] + (ls[1..] + [last]);
        { assert ls == [ls[0]] + ls[1..]; }
        ls + [last];
      }
    }
  }
}

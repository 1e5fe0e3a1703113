/**
 * Value-level behaviour of the bus's listener table (`m_listeners`, one list of
 * listeners per message type, index 0 being the "every type" list) and of the
 * slot-occupancy scan.  The classes in module MessageBus are proved against
 * these functions.
 */
module BusLists {
  import opened Wrappers
  import opened Text

  /** `m_listeners` after `resize(n)` when it is shorter than `n`; unchanged otherwise. */
  function Grow<T>(lists: seq<seq<T>>, n: nat): (r: seq<seq<T>>)
    ensures |r| == if |lists| < n then n else |lists|
    ensures forall k | 0 <= k < |r| :: r[k] == if k < |lists| then lists[k] else []
  {
    if |lists| < n then lists + Copies([], n - |lists|) else lists
  }

  /**
   * `MessageBus::Subscribe`: grow the table to hold index `t`, then append `l`
   * to list `t`, whether or not it is already there.
   */
  function Appended<T>(lists: seq<seq<T>>, t: nat, l: T): (r: seq<seq<T>>)
    ensures |r| == if |lists| <= t then t + 1 else |lists|
    ensures r[t] == (if t < |lists| then lists[t] else []) + [l]
    ensures forall k | 0 <= k < |r| && k != t :: r[k] == if k < |lists| then lists[k] else []
  {
    var g := Grow(lists, t + 1);
    g[t := g[t] + [l]]
  }

  /** Subscribing adds exactly one occurrence of `l` to list `t` and to the whole table. */
  lemma AppendedCounts<T>(lists: seq<seq<T>>, t: nat, l: T, x: T)
    ensures Count(x, Appended(lists, t, l)[t]) ==
            Count(x, if t < |lists| then lists[t] else []) + (if x == l then 1 else 0)
  {
    var before := if t < |lists| then lists[t] else [];
    CountAppend(x, before, [l]);
  }

  /**
   * `MessageBus::Unsubscribe` as written: scanning by index, each match is
   * erased and the index still advances, so the element that shifts into the
   * erased position is never examined.
   */
  function EraseSkipping<T(==)>(s: seq<T>, l: T): (r: seq<T>)
    ensures |r| <= |s|
  {
    if |s| == 0 then []
    else if s[0] == l then (if |s| == 1 then [] else [s[1]] + EraseSkipping(s[2..], l))
    else [s[0]] + EraseSkipping(s[1..], l)
  }

  /** `l` never appears twice in a row in `s`. */
  predicate NoAdjacentRepeat<T(==)>(s: seq<T>, l: T)
  {
    forall i | 0 <= i < |s| - 1 :: !(s[i] == l && s[i + 1] == l)
  }

  /** Unsubscribing never touches the other listeners of the list, nor their order. */
  lemma {:induction false} EraseSkippingKeepsOthers<T>(s: seq<T>, l: T, x: T)
    requires x != l
    ensures Count(x, EraseSkipping(s, l)) == Count(x, s)
    decreases |s|
  {
    if |s| == 0 {
    } else if s[0] == l {
      if |s| > 1 {
        EraseSkippingKeepsOthers(s[2..], l, x);
        assert s[1..][1..] == s[2..];
      }
    } else {
      EraseSkippingKeepsOthers(s[1..], l, x);
    }
  }

  /** When `l` is never listed twice in a row, unsubscribing removes it completely. */
  lemma {:induction false} EraseSkippingRemovesAll<T>(s: seq<T>, l: T)
    requires NoAdjacentRepeat(s, l)
    ensures l !in EraseSkipping(s, l)
    decreases |s|
  {
    if |s| == 0 {
    } else if s[0] == l {
      if |s| > 1 {
        assert s[1] != l by { assert !(s[0] == l && s[1] == l); }
        assert NoAdjacentRepeat(s[2..], l) by {
          forall i | 0 <= i < |s[2..]| - 1 ensures !(s[2..][i] == l && s[2..][i + 1] == l) {
            assert !(s[i + 2] == l && s[i + 3] == l);
          }
        }
        EraseSkippingRemovesAll(s[2..], l);
      }
    } else {
      assert NoAdjacentRepeat(s[1..], l) by {
        forall i | 0 <= i < |s[1..]| - 1 ensures !(s[1..][i] == l && s[1..][i + 1] == l) {
          assert !(s[i + 1] == l && s[i + 2] == l);
        }
      }
      EraseSkippingRemovesAll(s[1..], l);
    }
  }

  /** A listener subscribed twice in a row to one type stays subscribed after one unsubscribe. */
  lemma DoubleSubscriptionSurvives<T>(l: T)
    ensures EraseSkipping([l, l], l) == [l]
  {
    assert [l, l][2..] == [];
  }

  /**
   * The first free slot (`AllocateMessage`'s scan): the least index whose
   * occupancy flag is false, or nothing when every slot is occupied.
   */
  function FirstFree(inUse: seq<bool>): (r: Option<nat>)
    ensures r.Some? ==> r.value < |inUse| && !inUse[r.value] && forall j | 0 <= j < r.value :: inUse[j]
    ensures r.None? ==> forall j | 0 <= j < |inUse| :: inUse[j]
  {
    if |inUse| == 0 then None
    else if !inUse[0] then Some(0)
    else match FirstFree(inUse[1..]) {
      case None => None
      case Some(i) => Some(i + 1)
    }
  }
}

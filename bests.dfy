/** The best-score rule of 05-fifteen/src/main.js: a stored best (moves or time)
    is written when there is none yet or the new value is strictly smaller. */
module Bests {
  import opened Js

  /** The stored record after a win with value `v`. */
  function RecordBest(stored: Option<int>, v: int): (r: Option<int>)
    ensures r.Some?
    ensures r == Some(v) || r == stored
    ensures stored.None? ==> r == Some(v)
    ensures stored.Some? ==> r.value <= stored.value && r.value <= v
    ensures stored.Some? && v < stored.value ==> r == Some(v)
  {
    if stored.None? || v < stored.value then Some(v) else stored
  }

  function Min(x: int, y: int): int
  {
    if x <= y then x else y
  }

  /** The smallest of a non-empty sequence. */
  function MinOf(vs: seq<int>): (m: int)
    requires |vs| > 0
    ensures m in vs && forall k :: 0 <= k < |vs| ==> m <= vs[k]
  {
    if |vs| == 1 then vs[0] else Min(MinOf(vs[..|vs| - 1]), vs[|vs| - 1])
  }

  /** The stored record after a series of wins with values `vs`. */
  function RecordAll(stored: Option<int>, vs: seq<int>): Option<int>
    decreases |vs|
  {
    if |vs| == 0 then stored else RecordBest(RecordAll(stored, vs[..|vs| - 1]), vs[|vs| - 1])
  }

  /** After any wins the record is the minimum of everything seen: the first
      win sets it, and it never increases. */
  lemma {:induction false} RecordIsMinimum(stored: Option<int>, vs: seq<int>)
    requires |vs| > 0
    ensures RecordAll(stored, vs) ==
            Some(if stored.None? then MinOf(vs) else Min(stored.value, MinOf(vs)))
  {
    if |vs| > 1 {
      RecordIsMinimum(stored, vs[..|vs| - 1]);
    }
  }

  /** A record only ever decreases across further wins. */
  lemma {:induction false} RecordNeverIncreases(stored: Option<int>, vs: seq<int>, ws: seq<int>)
    requires RecordAll(stored, vs).Some?
    ensures RecordAll(stored, vs + ws).Some?
    ensures RecordAll(stored, vs + ws).value <= RecordAll(stored, vs).value
    decreases |ws|
  {
    if |ws| > 0 {
      assert (vs + ws)[..|vs + ws| - 1] == vs + ws[..|ws| - 1];
      RecordNeverIncreases(stored, vs, ws[..|ws| - 1]);
    } else {
      assert vs + ws == vs;
    }
  }
}

/** Insertion-ordered palettes. Each converter keeps a dictionary from state
    text to id where a state seen for the first time gets the next free id;
    since ids are handed out 0, 1, 2, ... the dictionary is the list of its
    keys with id = position. */
module Palette {
  import opened Common

  /** `if s not in palette: palette[s] = len(palette)`. */
  function AddState(pal: seq<string>, s: string): (r: seq<string>)
    ensures s in r
    ensures forall t :: t in r <==> t in pal || t == s
    ensures |pal| <= |r| <= |pal| + 1 && r[..|pal|] == pal
    ensures Distinct(pal) ==> Distinct(r)
  {
    if s in pal then pal else pal + [s]
  }

  /** Ids once handed out never change. */
  lemma IdStable(pal: seq<string>, s: string, t: string)
    requires t in pal
    ensures IndexOf(AddState(pal, s), t) == IndexOf(pal, t)
  {
    if s !in pal {
      IndexOfPrefix(pal, s, t);
    }
  }

  lemma IndexOfPrefix<T>(s: seq<T>, x: T, y: T)
    requires y in s
    ensures IndexOf(s + [x], y) == IndexOf(s, y)
  {
    var i := IndexOf(s, y);
    assert (s + [x])[i] == y;
    var j := IndexOf(s + [x], y);
    assert s[j] == (s + [x])[j];
  }

  lemma IndexOfLast<T>(s: seq<T>, x: T)
    requires x !in s
    ensures IndexOf(s + [x], x) == |s|
  {
    forall k | 0 <= k < |s| ensures (s + [x])[k] != x {
      assert (s + [x])[k] == s[k];
    }
  }

  /** The palette a run of states builds, one AddState per state. */
  function Build(states: seq<string>): seq<string>
  {
    if |states| == 0 then []
    else AddState(Build(states[..|states| - 1]), states[|states| - 1])
  }

  /** `pal` lists the distinct members of `states`, ordered by where each
      first occurs. */
  ghost predicate FirstSeen(pal: seq<string>, states: seq<string>)
  {
    Distinct(pal) &&
    (forall s :: s in pal <==> s in states) &&
    (forall i, j :: 0 <= i < j < |pal| ==> IndexOf(states, pal[i]) < IndexOf(states, pal[j]))
  }

  /** Building a palette gives every distinct state one id, in order of first
      appearance. */
  lemma {:induction false} BuildFirstSeen(states: seq<string>)
    ensures FirstSeen(Build(states), states)
  {
    if |states| > 0 {
      var init := states[..|states| - 1];
      var s := states[|states| - 1];
      assert states == init + [s];
      BuildFirstSeen(init);
      var pal := Build(init);
      var r := Build(states);
      forall i, j | 0 <= i < j < |r|
        ensures IndexOf(states, r[i]) < IndexOf(states, r[j])
      {
        assert r[i] == pal[i];
        IndexOfPrefix(init, s, r[i]);
        if j < |pal| {
          assert r[j] == pal[j];
          IndexOfPrefix(init, s, r[j]);
        } else {
          IndexOfLast(init, s);
        }
      }
    }
  }

  /** FirstSeen pins the palette down completely. */
  lemma {:induction false} FirstSeenUnique(p: seq<string>, q: seq<string>, states: seq<string>)
    requires FirstSeen(p, states) && FirstSeen(q, states)
    ensures p == q
  {
    var pm := set x | x in p;
    var qm := set x | x in q;
    assert pm == qm;
    DistinctCard(p);
    DistinctCard(q);
    forall i | 0 <= i < |p| ensures p[i] == q[i] {
      FirstSeenRank(p, q, states, i);
    }
  }

  lemma {:induction false} DistinctCard<T>(s: seq<T>)
    requires Distinct(s)
    ensures |set x | x in s| == |s|
  {
    if |s| > 0 {
      var t := s[1..];
      assert Distinct(t);
      DistinctCard(t);
      assert (set x | x in s) == (set x | x in t) + {s[0]};
      assert s[0] !in (set x | x in t);
    }
  }

  /** The i-th entry of a first-seen palette is the state with exactly i
      smaller first occurrences, so two such palettes agree at every i. */
  lemma {:induction false} FirstSeenRank(p: seq<string>, q: seq<string>, states: seq<string>, i: nat)
    requires FirstSeen(p, states) && FirstSeen(q, states)
    requires |p| == |q| && i < |p|
    ensures p[i] == q[i]
    decreases i
  {
    forall k | 0 <= k < i ensures p[k] == q[k] {
      FirstSeenRank(p, q, states, k);
    }
    var x, y := p[i], q[i];
    assert x in q && y in p;
    var jx := IndexOf(q, x);
    var jy := IndexOf(p, y);
    // q[..i] == p[..i] and p, q are distinct, so x and y sit at or after i
    forall k | 0 <= k < i ensures q[k] != x && p[k] != y {
      assert q[k] == p[k];
    }
    FirstSeenMonotone(q, states, i, jx);
    FirstSeenMonotone(p, states, i, jy);
    assert states[IndexOf(states, x)] == x;
  }

  /** Ids of a first-seen palette never run backwards. */
  lemma FirstSeenMonotone(p: seq<string>, states: seq<string>, a: nat, b: nat)
    requires FirstSeen(p, states) && a <= b < |p|
    ensures IndexOf(states, p[a]) <= IndexOf(states, p[b])
  {
    if a < b {
      assert IndexOf(states, p[a]) < IndexOf(states, p[b]);
    }
  }

  /** `palette.items()` from position k on: each state with its id. */
  function ItemsFrom(palette: seq<string>, k: nat): (r: seq<(string, nat)>)
    requires k <= |palette|
    ensures |r| == |palette| - k && forall i :: 0 <= i < |r| ==> r[i] == (palette[k + i], k + i)
  {
    seq(|palette| - k, i requires 0 <= i < |palette| - k => (palette[k + i], k + i))
  }

  /** `for state, idx in palette.items(): if idx == palette_idx: block_state
      = state; break`: the state of the first pair carrying the id. */
  function FindState(items: seq<(string, nat)>, id: nat): Option<string>
  {
    if |items| == 0 then None
    else if items[0].1 == id then Some(items[0].0)
    else FindState(items[1..], id)
  }

  /** Scanning the pairs from position k finds the state at position id
      when id is at or after k and inside the palette, and nothing else. */
  lemma {:induction false} FindFrom(palette: seq<string>, k: nat, id: nat)
    requires k <= |palette|
    ensures FindState(ItemsFrom(palette, k), id) ==
      if k <= id < |palette| then Some(palette[id]) else None
    decreases |palette| - k
  {
    if k < |palette| {
      assert ItemsFrom(palette, k)[1..] == ItemsFrom(palette, k + 1);
      FindFrom(palette, k + 1, id);
    }
  }

  /** The reverse lookup of a palette, as the converter searches the
      dictionary's pairs: it finds a state exactly for the ids below the
      palette size, and that state is the one holding the id. The banner
      step's inverted dictionary `{idx: state}` answers the same. */
  function StateOfId(palette: seq<string>, id: nat): (r: Option<string>)
    ensures r.Some? <==> id < |palette|
    ensures r.Some? ==> r.value == palette[id]
  {
    FindFrom(palette, 0, id);
    FindState(ItemsFrom(palette, 0), id)
  }

  /** `if not block_state: continue` skips a missing or empty state. */
  predicate Named(palette: seq<string>, id: nat)
  {
    StateOfId(palette, id).Some? && StateOfId(palette, id).value != ""
  }
}

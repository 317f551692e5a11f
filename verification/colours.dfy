/** The colour map of `NewCenterView` in models/view.go: every distinct
    activity name, in order of first appearance, gets the next colour of a
    six-colour palette, and "white" once the palette is used up. */
module Colours {
  import opened Activities

  const Palette: seq<string> := [
    "rgb(234, 153, 153)",
    "rgb(249, 203, 156)",
    "rgb(255, 229, 153)",
    "rgb(182, 215, 168)",
    "rgb(162, 196, 201)",
    "rgb(164, 194, 244)"
  ]

  const Fallback: string := "white"

  /** The colour of the `k`-th distinct name (counting from 0). */
  function ColourFor(k: nat): (c: string)
    ensures k < |Palette| ==> c == Palette[k]
    ensures k >= |Palette| ==> c == Fallback
  {
    if k >= |Palette| then Fallback else Palette[k]
  }

  /** The names of the given activities. */
  function NameSet(acts: seq<Activity>): set<string> {
    set i | 0 <= i < |acts| :: acts[i].name
  }

  /** Activity `i` is the first with its name. */
  predicate FirstOfName(acts: seq<Activity>, i: nat)
    requires i < |acts|
  {
    acts[i].name !in NameSet(acts[..i])
  }

  lemma NameSetSnoc(acts: seq<Activity>)
    requires acts != []
    ensures NameSet(acts) == NameSet(acts[..|acts| - 1]) + {acts[|acts| - 1].name}
  {
    var front := acts[..|acts| - 1];
    forall x | x in NameSet(acts) ensures x in NameSet(front) + {acts[|acts| - 1].name} {
      var i :| 0 <= i < |acts| && acts[i].name == x;
      if i < |front| { assert front[i] == acts[i]; }
    }
    forall x | x in NameSet(front) ensures x in NameSet(acts) {
      var i :| 0 <= i < |front| && front[i].name == x;
      assert acts[i] == front[i];
    }
  }

  /** The colour loop: the map and the counter `colorIndex` after the
      given activities, one turn per activity. */
  function ColourLoop(acts: seq<Activity>): (r: (map<string, string>, nat))
    ensures r.0.Keys == NameSet(acts)
    ensures r.1 == |NameSet(acts)|
    decreases |acts|
  {
    if acts == [] then (map[], 0)
    else
      var (m, n) := ColourLoop(acts[..|acts| - 1]);
      NameSetSnoc(acts);
      var name := acts[|acts| - 1].name;
      if name in m then (m, n) else (m[name := ColourFor(n)], n + 1)
  }

  /** `colourMap`. */
  function ColourMap(acts: seq<Activity>): map<string, string> {
    ColourLoop(acts).0
  }

  /** Each name's colour is the one for the number of distinct names seen
      before its first appearance. */
  lemma {:induction false} ColourOfFirstAppearance(acts: seq<Activity>, i: nat)
    requires i < |acts| && FirstOfName(acts, i)
    ensures acts[i].name in ColourMap(acts)
    ensures ColourMap(acts)[acts[i].name] == ColourFor(|NameSet(acts[..i])|)
    decreases |acts|
  {
    var front := acts[..|acts| - 1];
    var name := acts[|acts| - 1].name;
    NameSetSnoc(acts);
    if i < |front| {
      assert front[..i] == acts[..i];
      assert front[i] == acts[i];
      ColourOfFirstAppearance(front, i);
      assert acts[i].name in NameSet(front);
    } else {
      assert acts[..i] == front;
    }
  }

  lemma NameSetPrefix(acts: seq<Activity>, i: nat, j: nat)
    requires i <= j <= |acts|
    ensures NameSet(acts[..i]) <= NameSet(acts[..j])
  {
    forall x | x in NameSet(acts[..i]) ensures x in NameSet(acts[..j]) {
      var k :| 0 <= k < i && acts[..i][k].name == x;
      assert acts[..j][k] == acts[..i][k];
    }
  }

  lemma {:induction false} ProperSubsetSize<T>(a: set<T>, b: set<T>, x: T)
    requires a <= b && x in b && x !in a
    ensures |a| < |b|
    decreases |a|
  {
    if a == {} {
      assert x in b;
    } else {
      var y :| y in a;
      ProperSubsetSize(a - {y}, b - {y}, x);
    }
  }

  /** The six palette colours are different, and none is the fallback. */
  lemma PaletteIsInjective(p: nat, q: nat)
    requires p < q < |Palette|
    ensures Palette[p] != Palette[q]
    ensures forall k :: 0 <= k < |Palette| ==> Palette[k] != Fallback
  {
    forall k | 0 <= k < |Palette| ensures Palette[k] != Fallback {
      assert Palette[k][0] != Fallback[0];
    }
    assert Palette[p][5] != Palette[q][5] || Palette[p][6] != Palette[q][6];
  }

  /** While the palette lasts, different names get different colours. */
  lemma DistinctColoursWhilePaletteLasts(acts: seq<Activity>, i: nat, j: nat)
    requires i < j < |acts| && FirstOfName(acts, i) && FirstOfName(acts, j)
    requires |NameSet(acts)| <= |Palette|
    ensures ColourMap(acts)[acts[i].name] != ColourMap(acts)[acts[j].name]
  {
    ColourOfFirstAppearance(acts, i);
    ColourOfFirstAppearance(acts, j);
    NameSetPrefix(acts, i, j);
    NameSetPrefix(acts, j, |acts|);
    assert acts[..|acts|] == acts;
    assert acts[i].name in NameSet(acts[..j]) by {
      assert acts[..j][i] == acts[i];
    }
    ProperSubsetSize(NameSet(acts[..i]), NameSet(acts[..j]), acts[i].name);
    assert acts[j].name in NameSet(acts);
    ProperSubsetSize(NameSet(acts[..j]), NameSet(acts), acts[j].name);
    PaletteIsInjective(|NameSet(acts[..i])|, |NameSet(acts[..j])|);
  }
}

/** Sampling of the board's categories (`getCategoryIds`): random categories
    are requested one at a time and kept when they report enough clues. The
    answers to the requests are an input sequence of probes. */
module CategoryIds {
  import opened JeopardyData

  /** Whether a probe's category is kept. */
  predicate Keeps(p: Probe) {
    p.cluesCount >= MinClues
  }

  /** The ids kept from a run of probes, in the order they were probed. */
  function Accepted(probes: seq<Probe>): (ids: seq<CategoryId>)
    ensures |ids| <= |probes|
  {
    if probes == [] then []
    else
      var last := probes[|probes| - 1];
      Accepted(probes[..|probes| - 1]) + (if Keeps(last) then [last.id] else [])
  }

  /** Positions, in the probe run, of the probes that are kept. */
  function KeptAt(probes: seq<Probe>): (at: seq<nat>)
  {
    if probes == [] then []
    else
      var n := |probes| - 1;
      KeptAt(probes[..n]) + (if Keeps(probes[n]) then [n] else [])
  }

  /** Probing in two runs keeps what each run keeps, one after the other. */
  lemma {:induction false} AcceptedAppend(p: seq<Probe>, q: seq<Probe>)
    ensures Accepted(p + q) == Accepted(p) + Accepted(q)
    decreases |q|
  {
    if q == [] {
      assert p + q == p;
    } else {
      var n := |q| - 1;
      assert (p + q)[..|p + q| - 1] == p + q[..n];
      AcceptedAppend(p, q[..n]);
    }
  }

  /** What a shorter run keeps is a prefix of what a longer run keeps. */
  lemma AcceptedPrefix(probes: seq<Probe>, i: nat)
    requires i <= |probes|
    ensures Accepted(probes) == Accepted(probes[..i]) + Accepted(probes[i..])
  {
    assert probes == probes[..i] + probes[i..];
    AcceptedAppend(probes[..i], probes[i..]);
  }

  /** The kept ids are exactly the ids of the probes reporting at least two
      clues, in probe order: every kept id comes from such a probe, positions
      strictly increase, and no such probe is skipped. Nothing removes an id
      that was already kept. */
  lemma {:induction false} AcceptedIsOrderedSelection(probes: seq<Probe>)
    ensures |KeptAt(probes)| == |Accepted(probes)|
    ensures forall m :: 0 <= m < |KeptAt(probes)| ==>
      KeptAt(probes)[m] < |probes| && Keeps(probes[KeptAt(probes)[m]]) &&
      probes[KeptAt(probes)[m]].id == Accepted(probes)[m]
    ensures forall m, m' :: 0 <= m < m' < |KeptAt(probes)| ==> KeptAt(probes)[m] < KeptAt(probes)[m']
    ensures forall j :: 0 <= j < |probes| && Keeps(probes[j]) ==> j in KeptAt(probes)
  {
    if probes != [] {
      var n := |probes| - 1;
      var init := probes[..n];
      AcceptedIsOrderedSelection(init);
      assert forall j :: 0 <= j < n ==> init[j] == probes[j];
    }
  }

  /** An id is kept exactly when some probe with that id reports enough clues. */
  lemma {:induction false} AcceptedMembers(probes: seq<Probe>, x: CategoryId)
    ensures x in Accepted(probes) <==> exists j :: 0 <= j < |probes| && Keeps(probes[j]) && probes[j].id == x
  {
    AcceptedIsOrderedSelection(probes);
    var at, ids := KeptAt(probes), Accepted(probes);
    if x in ids {
      var m :| 0 <= m < |ids| && ids[m] == x;
      assert Keeps(probes[at[m]]) && probes[at[m]].id == x;
    }
    if exists j :: 0 <= j < |probes| && Keeps(probes[j]) && probes[j].id == x {
      var j :| 0 <= j < |probes| && Keeps(probes[j]) && probes[j].id == x;
      assert j in at;
      var m :| 0 <= m < |at| && at[m] == j;
      assert ids[m] == x;
    }
  }

  /** The same category probed twice is kept twice: duplicates are not excluded. */
  lemma DuplicatesKept(c: CategoryId)
    ensures Accepted([Probe(c, 2), Probe(c, 5)]) == [c, c]
  {
    var p := [Probe(c, 2), Probe(c, 5)];
    assert p[..1] == [Probe(c, 2)] && [Probe(c, 2)][..0] == [];
  }

  /** When every probe reports enough clues, every probe's id is kept, in
      order. */
  lemma {:induction false} AllKept(probes: seq<Probe>)
    requires forall j :: 0 <= j < |probes| ==> Keeps(probes[j])
    ensures Accepted(probes) == seq(|probes|, j requires 0 <= j < |probes| => probes[j].id)
  {
    if probes != [] {
      AllKept(probes[..|probes| - 1]);
    }
  }

  /** A first probe reporting one clue is discarded and the six that follow,
      reporting two, three, two, two, two and two clues, are all kept. */
  lemma FirstShortProbeDiscarded(c: seq<CategoryId>)
    requires |c| == 7
    ensures Accepted([Probe(c[0], 1), Probe(c[1], 2), Probe(c[2], 3), Probe(c[3], 2),
                      Probe(c[4], 2), Probe(c[5], 2), Probe(c[6], 2)]) == c[1..]
  {
    var p := [Probe(c[0], 1), Probe(c[1], 2), Probe(c[2], 3), Probe(c[3], 2),
              Probe(c[4], 2), Probe(c[5], 2), Probe(c[6], 2)];
    assert p == [p[0]] + p[1..];
    AcceptedAppend([p[0]], p[1..]);
    assert Accepted([p[0]]) == [] by { assert [p[0]][..0] == []; }
    AllKept(p[1..]);
  }

  /** Collects category ids from the probes, in order, until six are in hand,
      skipping every probe that reports fewer than two clues. `used` is how many
      probes were consumed. When the probes run out first the result is `None`
      (the program would go on requesting more). */
  method GetCategoryIds(probes: seq<Probe>) returns (ids: Option<seq<CategoryId>>, used: nat)
    ensures used <= |probes|
    ensures ids.Some? <==> |Accepted(probes)| >= NumCategories
    ensures ids.Some? ==> ids.value == Accepted(probes)[..NumCategories]
    ensures ids.Some? ==> ids.value == Accepted(probes[..used])
    ensures ids.Some? ==> 0 < used && |Accepted(probes[..used - 1])| < NumCategories
    ensures ids.None? ==> used == |probes|
  {
    var got: seq<CategoryId> := [];
    used := 0;
    while |got| < NumCategories && used < |probes|
      invariant used <= |probes|
      invariant got == Accepted(probes[..used])
      invariant |got| <= NumCategories
      invariant |got| == NumCategories ==> 0 < used && |Accepted(probes[..used - 1])| < NumCategories
    {
      var category := probes[used];
      ghost var before := got;
      if Keeps(category) {
        got := got + [category.id];
      }
      used := used + 1;
      assert probes[..used][..used - 1] == probes[..used - 1];
      assert |before| < NumCategories;
    }
    AcceptedPrefix(probes, used);
    if |got| < NumCategories {
      assert used == |probes| by {
        if used < |probes| { assert false; }
      }
      assert probes[..used] == probes;
      ids := None;
    } else {
      ids := Some(got);
    }
  }
}

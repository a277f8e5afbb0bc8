/**
  The deduplication `extract_citations` performs with its `seen_citations`
  set. Each candidate is a record paired with the key the source builds for
  it; candidates are considered in order, and a record is appended only when
  its key has not been seen before. Generic in the record type.
*/
module SeenKeys {

  /** The keys of the candidates `cs`: the set of seen keys after all of them. */
  function Seen<T>(cs: seq<(T, string)>): set<string>
  {
    if cs == [] then {} else Seen(cs[..|cs| - 1]) + {cs[|cs| - 1].1}
  }

  /** The records the seen-keys set lets through, read left to right. */
  function Kept<T>(cs: seq<(T, string)>): seq<T>
  {
    if cs == [] then []
    else
      var init := cs[..|cs| - 1];
      if cs[|cs| - 1].1 in Seen(init) then Kept(init) else Kept(init) + [cs[|cs| - 1].0]
  }

  /** The records of the candidates, keys dropped. */
  function Records<T>(cs: seq<(T, string)>): (r: seq<T>)
    ensures |r| == |cs| && forall i :: 0 <= i < |cs| ==> r[i] == cs[i].0
  {
    seq(|cs|, i requires 0 <= i < |cs| => cs[i].0)
  }

  /** One more candidate: its key is added, and its record is kept exactly when the key is new. */
  lemma KeptSnoc<T>(cs: seq<(T, string)>, c: (T, string))
    ensures Seen(cs + [c]) == Seen(cs) + {c.1}
    ensures Kept(cs + [c]) == if c.1 in Seen(cs) then Kept(cs) else Kept(cs) + [c.0]
  {
    assert (cs + [c])[..|cs|] == cs;
  }

  /** A key is seen exactly when some candidate carries it. */
  lemma {:induction false} SeenMembers<T>(cs: seq<(T, string)>, k: string)
    ensures k in Seen(cs) <==> exists i :: 0 <= i < |cs| && cs[i].1 == k
  {
    if cs != [] {
      var init := cs[..|cs| - 1];
      SeenMembers(init, k);
      if k in Seen(init) {
        var i :| 0 <= i < |init| && init[i].1 == k;
        assert cs[i] == init[i];
      } else if k != cs[|cs| - 1].1 {
        forall i | 0 <= i < |cs| ensures cs[i].1 != k {
          if i < |init| {
            assert cs[i] == init[i];
          }
        }
      }
    }
  }

  /**
    The kept records, as positions: they are the records of the candidates at
    strictly increasing positions `idx`, each the first candidate with its key;
    and `cover` names, for every candidate, the kept position that carries its
    key, at or before it.
  */
  lemma {:induction false} KeptFirstOccurrences<T>(cs: seq<(T, string)>) returns (idx: seq<nat>, cover: seq<nat>)
    ensures |idx| == |Kept(cs)|
    ensures forall i :: 0 <= i < |idx| ==> idx[i] < |cs| && Kept(cs)[i] == cs[idx[i]].0
    ensures forall i, j :: 0 <= i < j < |idx| ==> idx[i] < idx[j]
    ensures forall i, j :: 0 <= i < |idx| && 0 <= j < idx[i] ==> cs[j].1 != cs[idx[i]].1
    ensures |cover| == |cs|
    ensures forall j :: 0 <= j < |cs| ==> cover[j] < |idx| && idx[cover[j]] <= j && cs[idx[cover[j]]].1 == cs[j].1
  {
    if cs == [] {
      idx, cover := [], [];
    } else {
      var init := cs[..|cs| - 1];
      var c := cs[|cs| - 1];
      var idx0, cover0 := KeptFirstOccurrences(init);
      var d0 := Kept(init);
      forall i | 0 <= i < |idx0| ensures cs[idx0[i]] == init[idx0[i]] && d0[i] == cs[idx0[i]].0 {
      }
      forall i, j | 0 <= i < |idx0| && 0 <= j < idx0[i] ensures cs[j].1 != cs[idx0[i]].1 {
        assert cs[j] == init[j];
      }
      forall j | 0 <= j < |init| ensures cs[j] == init[j] && cs[idx0[cover0[j]]] == init[idx0[cover0[j]]] {
      }
      SeenMembers(init, c.1);
      if c.1 in Seen(init) {
        assert Kept(cs) == d0;
        var j0 :| 0 <= j0 < |init| && init[j0].1 == c.1;
        idx, cover := idx0, cover0 + [cover0[j0]];
      } else {
        assert Kept(cs) == d0 + [c.0];
        idx, cover := idx0 + [|cs| - 1], cover0 + [|idx0|];
        forall j | 0 <= j < |cs| - 1 ensures cs[j].1 != c.1 {
          assert cs[j] == init[j];
        }
      }
    }
  }

  /** No two kept records come from candidates with the same key. */
  lemma KeptDistinctKeys<T>(cs: seq<(T, string)>) returns (idx: seq<nat>)
    ensures |idx| == |Kept(cs)|
    ensures forall i :: 0 <= i < |idx| ==> idx[i] < |cs| && Kept(cs)[i] == cs[idx[i]].0
    ensures forall i, j :: 0 <= i < j < |idx| ==> cs[idx[i]].1 != cs[idx[j]].1
  {
    var cover;
    idx, cover := KeptFirstOccurrences(cs);
  }

  /** Candidates added at the end never change or reorder the records already kept. */
  lemma {:induction false} KeptAppend<T>(a: seq<(T, string)>, b: seq<(T, string)>) returns (x: seq<T>)
    ensures Kept(a + b) == Kept(a) + x
    ensures forall c :: c in x ==> exists i :: 0 <= i < |b| && b[i].0 == c
    decreases |b|
  {
    if b == [] {
      assert a + b == a;
      x := [];
    } else {
      var binit := b[..|b| - 1];
      var c := b[|b| - 1];
      var x0 := KeptAppend(a, binit);
      var ab := a + binit;
      assert a + b == ab + [c];
      KeptSnoc(ab, c);
      if c.1 in Seen(ab) {
        x := x0;
      } else {
        x := x0 + [c.0];
        assert Kept(a + b) == (Kept(a) + x0) + [c.0];
      }
      forall e | e in x ensures exists i :: 0 <= i < |b| && b[i].0 == e {
        if e in x0 {
          var i :| 0 <= i < |binit| && binit[i].0 == e;
          assert b[i] == binit[i];
        } else {
          assert b[|b| - 1].0 == e;
        }
      }
    }
  }

  /** Candidates whose keys are already distinct all pass. */
  lemma {:induction false} KeptDistinct<T>(cs: seq<(T, string)>)
    requires forall i, j :: 0 <= i < j < |cs| ==> cs[i].1 != cs[j].1
    ensures Kept(cs) == Records(cs)
  {
    if cs != [] {
      var init := cs[..|cs| - 1];
      KeptDistinct(init);
      SeenMembers(init, cs[|cs| - 1].1);
      assert Records(cs) == Records(init) + [cs[|cs| - 1].0];
    }
  }
}

/**
 * The dispatcher's worker roster `activeWorkers`: an ordered list of worker
 * names whose positions give each worker its partition index.
 */
module Roster {

  predicate NoDuplicates(ws: seq<string>)
  {
    forall i, j :: 0 <= i < j < |ws| ==> ws[i] != ws[j]
  }

  /** Appends `w` unless it is already present; existing positions are kept. */
  function Register(ws: seq<string>, w: string): (r: seq<string>)
    ensures w in r
    ensures forall x :: x in r <==> x in ws || x == w
    ensures |ws| <= |r| && r[..|ws|] == ws
    ensures w in ws ==> r == ws
    ensures NoDuplicates(ws) ==> NoDuplicates(r)
  {
    if w in ws then ws else ws + [w]
  }

  /** The first position of `w`, as Python's `list.index`. */
  function IndexOf(ws: seq<string>, w: string): (i: nat)
    requires w in ws
    ensures i < |ws| && ws[i] == w
    ensures forall j :: 0 <= j < i ==> ws[j] != w
  {
    if ws[0] == w then 0 else 1 + IndexOf(ws[1..], w)
  }

  /** Removes the first occurrence of `w`, as Python's `list.remove`. */
  function RemoveFirst(ws: seq<string>, w: string): (r: seq<string>)
    requires w in ws
    ensures |r| == |ws| - 1
    ensures r == ws[..IndexOf(ws, w)] + ws[IndexOf(ws, w) + 1..]
  {
    var k := IndexOf(ws, w);
    ws[..k] + ws[k + 1..]
  }

  /** A worker whose last report is older than `cutoff`; one that never reported is not stale. */
  predicate Stale(last: map<string, real>, cutoff: real, w: string)
    ensures w !in last ==> !Stale(last, cutoff, w)
  {
    w in last && last[w] < cutoff
  }

  // ---------------------------------------------------- the sweep as written

  /**
   * Python's `for w in ws: if stale(w): ws.remove(w)`, from the iterator's
   * position `i`.  The iterator is an index into the live list that advances
   * after every element, so the element that slides into the removed one's
   * place is never examined in this pass.
   */
  function SweepFrom(ws: seq<string>, i: nat, last: map<string, real>, cutoff: real): (r: seq<string>)
    ensures |r| <= |ws|
    ensures forall x :: x in r ==> x in ws
    decreases |ws| - i
  {
    if i >= |ws| then ws
    else if Stale(last, cutoff, ws[i]) then SweepFrom(RemoveFirst(ws, ws[i]), i + 1, last, cutoff)
    else SweepFrom(ws, i + 1, last, cutoff)
  }

  /** One whole pass of the loop: it never adds a worker. */
  function Sweep(ws: seq<string>, last: map<string, real>, cutoff: real): (r: seq<string>)
    ensures |r| <= |ws|
    ensures forall x :: x in r ==> x in ws
  {
    SweepFrom(ws, 0, last, cutoff)
  }

  lemma RemoveAt(ws: seq<string>, i: nat)
    requires NoDuplicates(ws) && i < |ws|
    ensures RemoveFirst(ws, ws[i]) == ws[..i] + ws[i + 1..]
    ensures NoDuplicates(RemoveFirst(ws, ws[i]))
  {
    var k := IndexOf(ws, ws[i]);
    assert k == i;
    var r := ws[..i] + ws[i + 1..];
    forall a, b | 0 <= a < b < |r| ensures r[a] != r[b] {
      var a', b' := if a < i then a else a + 1, if b < i then b else b + 1;
      assert r[a] == ws[a'] && r[b] == ws[b'];
    }
  }

  /** Members of the roster after removing position i. */
  lemma RemoveAtMembers(ws: seq<string>, i: nat)
    requires NoDuplicates(ws) && i < |ws|
    ensures forall x :: x in RemoveFirst(ws, ws[i]) <==> x in ws && x != ws[i]
    ensures forall j :: 0 <= j < i ==> RemoveFirst(ws, ws[i])[j] == ws[j]
  {
    RemoveAt(ws, i);
    var r := ws[..i] + ws[i + 1..];
    forall x | x in ws && x != ws[i] ensures x in r {
      var j :| 0 <= j < |ws| && ws[j] == x;
      assert r[if j < i then j else j - 1] == x;
    }
  }

  /** On a roster without duplicates the sweep only removes, and keeps the roster free of duplicates. */
  lemma {:induction false} SweepFromShrinks(ws: seq<string>, i: nat, last: map<string, real>, cutoff: real)
    requires NoDuplicates(ws)
    ensures NoDuplicates(SweepFrom(ws, i, last, cutoff))
    ensures |SweepFrom(ws, i, last, cutoff)| <= |ws|
    ensures forall x :: x in SweepFrom(ws, i, last, cutoff) ==> x in ws
    decreases |ws| - i
  {
    if i < |ws| {
      if Stale(last, cutoff, ws[i]) {
        RemoveAtMembers(ws, i);
        SweepFromShrinks(RemoveFirst(ws, ws[i]), i + 1, last, cutoff);
      } else {
        SweepFromShrinks(ws, i + 1, last, cutoff);
      }
    }
  }

  /**
   * On a roster without duplicates the sweep removes only stale workers and
   * never touches the positions already passed.
   */
  lemma {:induction false} SweepFromKeeps(ws: seq<string>, i: nat, last: map<string, real>, cutoff: real)
    requires NoDuplicates(ws)
    ensures forall x :: x in ws && !Stale(last, cutoff, x) ==> x in SweepFrom(ws, i, last, cutoff)
    ensures forall j :: 0 <= j < i && j < |ws| ==> ws[j] in SweepFrom(ws, i, last, cutoff)
    decreases |ws| - i
  {
    if i < |ws| {
      if Stale(last, cutoff, ws[i]) {
        var ws' := RemoveFirst(ws, ws[i]);
        RemoveAtMembers(ws, i);
        SweepFromKeeps(ws', i + 1, last, cutoff);
      } else {
        SweepFromKeeps(ws, i + 1, last, cutoff);
      }
    }
  }

  /** On a roster without duplicates, the sweep evicts only stale workers. */
  lemma SweepSound(ws: seq<string>, last: map<string, real>, cutoff: real)
    requires NoDuplicates(ws)
    ensures NoDuplicates(Sweep(ws, last, cutoff))
    ensures forall x :: x in Sweep(ws, last, cutoff) ==> x in ws
    ensures forall x :: x in ws && !Stale(last, cutoff, x) ==> x in Sweep(ws, last, cutoff)
  {
    SweepFromShrinks(ws, 0, last, cutoff);
    SweepFromKeeps(ws, 0, last, cutoff);
  }

  /** Two neighbouring stale workers: the sweep evicts the first and keeps the second. */
  lemma SweepSkipsSuccessor()
    ensures var last := map["a" := 0.0, "b" := 0.0];
            Sweep(["a", "b"], last, 1.0) == ["b"]
  {
    var last := map["a" := 0.0, "b" := 0.0];
    assert IndexOf(["a", "b"], "a") == 0;
    assert RemoveFirst(["a", "b"], "a") == ["b"];
    assert SweepFrom(["b"], 1, last, 1.0) == ["b"];
  }

  /** If a stale worker sits at or after the iterator, the pass shortens the roster. */
  lemma {:induction false} SweepFromProgress(ws: seq<string>, i: nat, k: nat, last: map<string, real>, cutoff: real)
    requires NoDuplicates(ws) && i <= k < |ws| && Stale(last, cutoff, ws[k])
    ensures |SweepFrom(ws, i, last, cutoff)| < |ws|
    decreases |ws| - i
  {
    if Stale(last, cutoff, ws[i]) {
      RemoveAt(ws, i);
      SweepFromShrinks(RemoveFirst(ws, ws[i]), i + 1, last, cutoff);
    } else {
      SweepFromProgress(ws, i + 1, k, last, cutoff);
    }
  }

  // ---------------------------------------------------- the intended eviction

  /** Every stale worker removed, the others kept in order. */
  function EvictStale(ws: seq<string>, last: map<string, real>, cutoff: real): (r: seq<string>)
    ensures forall x :: x in r <==> x in ws && !Stale(last, cutoff, x)
    ensures NoDuplicates(ws) ==> NoDuplicates(r)
    ensures |r| <= |ws|
  {
    if ws == [] then []
    else if Stale(last, cutoff, ws[0]) then EvictStale(ws[1..], last, cutoff)
    else [ws[0]] + EvictStale(ws[1..], last, cutoff)
  }

  /** `n` sweeps in a row with the same clock and reports. */
  function Sweeps(ws: seq<string>, n: nat, last: map<string, real>, cutoff: real): seq<string>
    decreases n
  {
    if n == 0 then ws else Sweeps(Sweep(ws, last, cutoff), n - 1, last, cutoff)
  }

  /**
   * As many sweeps as there are workers leave exactly the workers the
   * intended eviction keeps.
   */
  lemma {:induction false} SweepsReachEviction(ws: seq<string>, n: nat, last: map<string, real>, cutoff: real)
    requires NoDuplicates(ws) && n >= |ws|
    ensures forall x :: x in Sweeps(ws, n, last, cutoff) <==> x in EvictStale(ws, last, cutoff)
    decreases n
  {
    if n > 0 {
      var ws' := Sweep(ws, last, cutoff);
      SweepSound(ws, last, cutoff);
      SweepFromShrinks(ws, 0, last, cutoff);
      if exists k :: 0 <= k < |ws| && Stale(last, cutoff, ws[k]) {
        var k :| 0 <= k < |ws| && Stale(last, cutoff, ws[k]);
        SweepFromProgress(ws, 0, k, last, cutoff);
        SweepsReachEviction(ws', n - 1, last, cutoff);
      } else {
        SweepsFixed(ws, n, last, cutoff);
      }
    } else {
      assert ws == [];
    }
  }

  /** With no stale worker any number of sweeps changes nothing. */
  lemma {:induction false} SweepsFixed(ws: seq<string>, n: nat, last: map<string, real>, cutoff: real)
    requires forall k :: 0 <= k < |ws| ==> !Stale(last, cutoff, ws[k])
    ensures Sweeps(ws, n, last, cutoff) == ws
    decreases n
  {
    if n > 0 {
      NoStaleFixed(ws, 0, last, cutoff);
      SweepsFixed(ws, n - 1, last, cutoff);
    }
  }

  /** With no stale worker the sweep changes nothing. */
  lemma {:induction false} NoStaleFixed(ws: seq<string>, i: nat, last: map<string, real>, cutoff: real)
    requires forall k :: 0 <= k < |ws| ==> !Stale(last, cutoff, ws[k])
    ensures SweepFrom(ws, i, last, cutoff) == ws
    decreases |ws| - i
  {
    if i < |ws| {
      NoStaleFixed(ws, i + 1, last, cutoff);
    }
  }
}

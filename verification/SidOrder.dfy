/** The order of session identifiers in which StopNSessions of client/client.go picks
    the sessions to stop: bytes.Compare, sorted, cut to the number wanted. */
module SidOrder {
  import opened Bytes
  import opened ControlMessages

  /** bytes.Compare(a, b) < 0, from position i on. */
  predicate Less(a: SID, b: SID, i: nat)
    requires i <= 16
    decreases 16 - i
  {
    i < 16 && (a[i] < b[i] || (a[i] == b[i] && Less(a, b, i + 1)))
  }

  /** One identifier comes before another when, at the first byte in which they differ, its
      byte is the smaller one. */
  lemma {:induction false} LessExactly(a: SID, b: SID, i: nat, k: nat)
    requires i <= k <= 16 && a[i..k] == b[i..k] && (k < 16 ==> a[k] != b[k])
    ensures Less(a, b, i) <==> k < 16 && a[k] < b[k]
    decreases k - i
  {
    if i < k {
      assert a[i] == a[i..k][0] && b[i] == b[i..k][0];
      assert a[i + 1..k] == a[i..k][1..] && b[i + 1..k] == b[i..k][1..];
      LessExactly(a, b, i + 1, k);
    }
  }

  lemma {:induction false} LessTotal(a: SID, b: SID, i: nat)
    requires i <= 16
    ensures !(Less(a, b, i) && Less(b, a, i))
    ensures !Less(a, b, i) && !Less(b, a, i) <==> a[i..] == b[i..]
    decreases 16 - i
  {
    if i < 16 {
      LessTotal(a, b, i + 1);
      assert a[i..] == [a[i]] + a[i + 1..] && b[i..] == [b[i]] + b[i + 1..];
    }
  }

  lemma {:induction false} LessTransitive(a: SID, b: SID, c: SID, i: nat)
    requires i <= 16 && Less(a, b, i) && Less(b, c, i)
    ensures Less(a, c, i)
    decreases 16 - i
  {
    if a[i] == b[i] == c[i] {
      LessTransitive(a, b, c, i + 1);
    }
  }

  predicate Ascending(xs: seq<SID>) {
    forall i, j :: 0 <= i < j < |xs| ==> Less(xs[i], xs[j], 0)
  }

  /** The n least SIDs in ascending order, or all of them when there are fewer. */
  predicate Selects(sids: set<SID>, n: uint32, selected: seq<SID>) {
    && |selected| == (if n <= |sids| then n as int else |sids|)
    && Ascending(selected)
    && (forall sid :: sid in selected ==> sid in sids)
    && (forall a, b :: a in selected && b in sids && b !in selected ==> Less(a, b, 0))
  }

  /** An ascending listing of a set. */
  ghost predicate Sorts(xs: seq<SID>, sids: set<SID>) {
    Ascending(xs) && |xs| == |sids| && forall x :: x in xs <==> x in sids
  }

  function Insert(xs: seq<SID>, x: SID): seq<SID> {
    if xs == [] then [x]
    else if Less(x, xs[0], 0) then [x] + xs
    else [xs[0]] + Insert(xs[1..], x)
  }

  lemma {:induction false} InsertMembers(xs: seq<SID>, x: SID)
    ensures |Insert(xs, x)| == |xs| + 1 && forall y :: y in Insert(xs, x) <==> y == x || y in xs
    decreases |xs|
  {
    if xs != [] && !Less(x, xs[0], 0) {
      InsertMembers(xs[1..], x);
      assert xs == [xs[0]] + xs[1..];
    }
  }

  lemma AscendingCons(x: SID, xs: seq<SID>)
    requires Ascending(xs) && forall y :: y in xs ==> Less(x, y, 0)
    ensures Ascending([x] + xs)
  {
    var ys := [x] + xs;
    forall i, j | 0 <= i < j < |ys| ensures Less(ys[i], ys[j], 0) {
      assert ys[j] == xs[j - 1] && xs[j - 1] in xs;
    }
  }

  lemma {:induction false} InsertAscends(xs: seq<SID>, x: SID)
    requires Ascending(xs) && x !in xs
    ensures Ascending(Insert(xs, x))
    decreases |xs|
  {
    if xs != [] {
      var h, t := xs[0], xs[1..];
      assert xs == [h] + t && Ascending(t);
      assert forall y :: y in t ==> Less(h, y, 0);
      LessTotal(x, h, 0);
      assert x[0..] == x && h[0..] == h;
      if Less(x, h, 0) {
        forall y | y in xs ensures Less(x, y, 0) {
          if y != h {
            LessTransitive(x, h, y, 0);
          }
        }
        AscendingCons(x, xs);
      } else {
        InsertAscends(t, x);
        InsertMembers(t, x);
        AscendingCons(h, Insert(t, x));
      }
    }
  }

  lemma InsertSorts(xs: seq<SID>, done: set<SID>, x: SID)
    requires Sorts(xs, done) && x !in done
    ensures Sorts(Insert(xs, x), done + {x})
  {
    InsertMembers(xs, x);
    InsertAscends(xs, x);
  }

  /** sort.Slice over the keys of a map, in whatever order the map yields them. */
  method SortedSids(sids: set<SID>) returns (xs: seq<SID>)
    ensures Sorts(xs, sids)
  {
    xs := [];
    var rest := sids;
    while rest != {}
      invariant rest <= sids && Sorts(xs, sids - rest)
      decreases rest
    {
      var sid :| sid in rest;
      InsertSorts(xs, sids - rest, sid);
      assert sids - rest + {sid} == sids - (rest - {sid});
      xs, rest := Insert(xs, sid), rest - {sid};
    }
    assert sids - rest == sids;
  }

  lemma {:induction false} SortExists(sids: set<SID>) returns (xs: seq<SID>)
    ensures Sorts(xs, sids)
    decreases |sids|
  {
    xs := [];
    if sids != {} {
      var sid :| sid in sids;
      var ys := SortExists(sids - {sid});
      InsertSorts(ys, sids - {sid}, sid);
      assert sids - {sid} + {sid} == sids;
      xs := Insert(ys, sid);
    }
  }

  function Cut(xs: seq<SID>, n: uint32): seq<SID> {
    if n <= |xs| then xs[..n] else xs
  }

  /** The sorted list cut to n is the selection. */
  lemma CutSelects(xs: seq<SID>, sids: set<SID>, n: uint32)
    requires Sorts(xs, sids)
    ensures Selects(sids, n, Cut(xs, n))
  {
    var selected := Cut(xs, n);
    assert forall i :: 0 <= i < |selected| ==> selected[i] == xs[i] && xs[i] in xs;
    forall a, b | a in selected && b in sids && b !in selected ensures Less(a, b, 0) {
      var i :| 0 <= i < |selected| && selected[i] == a;
      var j :| 0 <= j < |xs| && xs[j] == b;
    }
  }

  /** For every set of SIDs and every number there is exactly one selection. */
  lemma SelectionExists(sids: set<SID>, n: uint32) returns (selected: seq<SID>)
    ensures Selects(sids, n, selected)
    ensures forall other :: Selects(sids, n, other) ==> other == selected
  {
    var xs := SortExists(sids);
    selected := Cut(xs, n);
    CutSelects(xs, sids, n);
    forall other | Selects(sids, n, other) ensures other == selected {
      SelectionUnique(sids, n, other, selected, |other|);
      assert other[..|other|] == other && selected[..|other|] == selected;
    }
  }

  lemma {:induction false} SelectionUnique(sids: set<SID>, n: uint32, a: seq<SID>, b: seq<SID>, k: nat)
    requires Selects(sids, n, a) && Selects(sids, n, b) && k <= |a|
    ensures a[..k] == b[..k]
    decreases k
  {
    if k != 0 {
      SelectionUnique(sids, n, a, b, k - 1);
      NextEqual(sids, n, a, b, k - 1);
      assert a[..k] == a[..k - 1] + [a[k - 1]] && b[..k] == b[..k - 1] + [b[k - 1]];
    }
  }

  /** After equal beginnings the two go on with the same SID: neither may be less. */
  lemma NextEqual(sids: set<SID>, n: uint32, a: seq<SID>, b: seq<SID>, i: nat)
    requires Selects(sids, n, a) && Selects(sids, n, b) && i < |a| && a[..i] == b[..i]
    ensures a[i] == b[i]
  {
    NotLess(sids, n, a, b, i);
    NotLess(sids, n, b, a, i);
    LessTotal(a[i], b[i], 0);
    assert a[i][0..] == a[i] && b[i][0..] == b[i];
  }

  lemma NotLess(sids: set<SID>, n: uint32, a: seq<SID>, b: seq<SID>, i: nat)
    requires Selects(sids, n, a) && Selects(sids, n, b) && i < |a| && a[..i] == b[..i]
    ensures !Less(a[i], b[i], 0)
  {
    var x, y := a[i], b[i];
    assert x in a && y in b;
    LessTotal(x, y, 0);
    if x in b {
      var j :| 0 <= j < |b| && b[j] == x;
      if j < i {
        assert a[j] == a[..i][j] == b[..i][j] == x;
        LessTotal(a[j], a[i], 0);
      } else if i < j {
        LessTotal(b[i], b[j], 0);
      }
    } else {
      assert Less(y, x, 0);
    }
  }
}

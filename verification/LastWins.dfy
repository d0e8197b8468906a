/**
 The list form both parsers accept: items in order, blank ones skipped, a later item
 replacing an earlier one of the same key in the earlier one's place.

 What one item states, and what its key is, are parameters: headers compare names
 without case, attribute lists compare keys exactly.
 */
module LastWins {
  import opened Wrappers
  import opened Text

  type ItemParser<!T, !E> = Bytes -> Result<Option<T>, E>

  /** What the items state, one entry each, or the first fault with its position from 1. */
  function Gather<T, E>(items: seq<Bytes>, parse: ItemParser<T, E>): (r: Result<seq<Option<T>>, (nat, E)>)
    ensures r.Ok? ==> |r.value| == |items|
  {
    if items == [] then Ok([])
    else
      var n := |items| - 1;
      var rest := Gather(items[..n], parse);
      if rest.Err? then rest
      else match parse(items[n])
           case Err(fault) => Err((n + 1, fault))
           case Ok(x) => Ok(rest.value + [x])
  }

  lemma {:induction false} GatherOk<T, E>(items: seq<Bytes>, parse: ItemParser<T, E>)
    ensures Gather(items, parse).Ok? <==> forall i :: 0 <= i < |items| ==> parse(items[i]).Ok?
    ensures Gather(items, parse).Ok? ==>
              forall i :: 0 <= i < |items| ==> parse(items[i]) == Ok(Gather(items, parse).value[i])
  {
    if items != [] {
      var front := items[..|items| - 1];
      GatherOk(front, parse);
      assert forall i :: 0 <= i < |front| ==> front[i] == items[i];
    }
  }

  lemma GatherAll<T, E>(items: seq<Bytes>, parse: ItemParser<T, E>, xs: seq<Option<T>>)
    requires |items| == |xs| && forall i :: 0 <= i < |items| ==> parse(items[i]) == Ok(xs[i])
    ensures Gather(items, parse) == Ok(xs)
  {
    GatherOk(items, parse);
    var got := Gather(items, parse).value;
    forall i | 0 <= i < |xs| ensures got[i] == xs[i] {
      assert parse(items[i]) == Ok(got[i]);
    }
    assert got == xs;
  }

  /** The fault reported is the first. */
  lemma {:induction false} GatherErr<T, E>(items: seq<Bytes>, parse: ItemParser<T, E>)
    requires Gather(items, parse).Err?
    ensures var (n, fault) := Gather(items, parse).error;
            && 1 <= n <= |items| && parse(items[n - 1]) == Err(fault)
            && forall i :: 0 <= i < n - 1 ==> parse(items[i]).Ok?
  {
    var front := items[..|items| - 1];
    if Gather(front, parse).Err? {
      GatherErr(front, parse);
      assert forall i :: 0 <= i < |front| ==> front[i] == items[i];
    } else {
      GatherOk(front, parse);
      assert forall i :: 0 <= i < |front| ==> front[i] == items[i];
    }
  }

  lemma {:induction false} GatherStops<T, E>(items: seq<Bytes>, parse: ItemParser<T, E>, n: nat)
    requires n <= |items| && Gather(items[..n], parse).Err?
    ensures Gather(items, parse) == Gather(items[..n], parse)
  {
    if n < |items| {
      assert items[..|items| - 1][..n] == items[..n];
      GatherStops(items[..|items| - 1], parse, n);
    } else {
      assert items[..n] == items;
    }
  }

  lemma GatherNext<T, E>(items: seq<Bytes>, parse: ItemParser<T, E>, n: nat, xs: seq<Option<T>>)
    requires n < |items| && Gather(items[..n], parse) == Ok(xs)
    ensures parse(items[n]).Ok? ==> Gather(items[..n + 1], parse) == Ok(xs + [parse(items[n]).value])
    ensures parse(items[n]).Err? ==> Gather(items, parse) == Err((n + 1, parse(items[n]).error))
  {
    var next := items[..n + 1];
    assert next[..n] == items[..n] && next[n] == items[n];
    if parse(items[n]).Err? {
      GatherStops(items, parse, n + 1);
    }
  }

  /** The position of the entry with that key, or the length. */
  function Position<T>(ps: seq<T>, key: T -> Bytes, k: Bytes): (i: nat)
    ensures i <= |ps|
    ensures i < |ps| ==> key(ps[i]) == k
    ensures forall j :: 0 <= j < i ==> key(ps[j]) != k
  {
    if ps == [] || key(ps[0]) == k then 0 else 1 + Position(ps[1..], key, k)
  }

  function Placed<T>(ps: seq<T>, key: T -> Bytes, x: T): seq<T> {
    var i := Position(ps, key, key(x));
    if i < |ps| then ps[i := x] else ps + [x]
  }

  /** The list the statements amount to. */
  function Merge<T>(xs: seq<Option<T>>, key: T -> Bytes): seq<T> {
    if xs == [] then []
    else
      var rest := Merge(xs[..|xs| - 1], key);
      match xs[|xs| - 1]
      case None => rest
      case Some(x) => Placed(rest, key, x)
  }

  lemma MergeNext<T>(xs: seq<Option<T>>, key: T -> Bytes, x: Option<T>)
    ensures Merge(xs + [x], key) == if x.Some? then Placed(Merge(xs, key), key, x.value) else Merge(xs, key)
  {
    assert (xs + [x])[..|xs|] == xs;
  }

  /** The index map finds the entry of each key, and nothing else. */
  ghost predicate Indexed<T>(index: map<Bytes, nat>, ps: seq<T>, key: T -> Bytes) {
    forall k :: IndexedKey(index, ps, key, k)
  }

  ghost predicate IndexedKey<T>(index: map<Bytes, nat>, ps: seq<T>, key: T -> Bytes, k: Bytes) {
    if k in index then index[k] == Position(ps, key, k) < |ps| else Position(ps, key, k) == |ps|
  }

  lemma PositionPlaced<T>(ps: seq<T>, key: T -> Bytes, x: T, k: Bytes)
    ensures var i, after := Position(ps, key, k), Placed(ps, key, x);
            Position(after, key, k) == if i < |ps| || k == key(x) then i else |after|
  {
    var i, after := Position(ps, key, k), Placed(ps, key, x);
    assert forall m :: 0 <= m < |ps| ==> key(after[m]) == key(ps[m]);
    assert |after| > |ps| ==> key(after[|ps|]) == key(x);
    if i < |ps| {
      assert key(after[i]) == k;
    }
  }

  lemma IndexedPlaced<T>(index: map<Bytes, nat>, ps: seq<T>, key: T -> Bytes, x: T)
    requires Indexed(index, ps, key)
    ensures IndexedKey(index, ps, key, key(x))
    ensures Indexed(index[key(x) := Position(ps, key, key(x))], Placed(ps, key, x), key)
  {
    var index', after := index[key(x) := Position(ps, key, key(x))], Placed(ps, key, x);
    forall k ensures IndexedKey(index', after, key, k) {
      assert IndexedKey(index, ps, key, k);
      PositionPlaced(ps, key, x, k);
    }
  }

  /** The parsers' loop: an index map finds the entry a later item replaces. */
  method Collect<T, E>(items: seq<Bytes>, parse: ItemParser<T, E>, key: T -> Bytes)
    returns (r: Result<seq<T>, (nat, E)>)
    ensures r == match Gather(items, parse)
                 case Err(e) => Err(e)
                 case Ok(xs) => Ok(Merge(xs, key))
  {
    var out: seq<T> := [];
    var index: map<Bytes, nat> := map[];
    ghost var xs: seq<Option<T>> := [];
    for n := 0 to |items|
      invariant Gather(items[..n], parse) == Ok(xs)
      invariant out == Merge(xs, key)
      invariant Indexed(index, out, key)
    {
      var item := parse(items[n]);
      GatherNext(items, parse, n, xs);
      if item.Err? {
        return Err((n + 1, item.error));
      }
      MergeNext(xs, key, item.value);
      xs := xs + [item.value];
      if item.value.Some? {
        var x := item.value.value;
        IndexedPlaced(index, out, key, x);
        if key(x) in index {
          assert index == index[key(x) := Position(out, key, key(x))];
          out := out[index[key(x)] := x];
        } else {
          index := index[key(x) := |out|];
          out := out + [x];
        }
      }
    }
    assert items[..|items|] == items;
    return Ok(out);
  }

  // --------------------------------------------------- what the list holds

  ghost predicate States<T(!new)>(xs: seq<Option<T>>, i: int, x: T) {
    0 <= i < |xs| && xs[i] == Some(x)
  }

  /** Entry i states x, and nothing after it states another of that key. */
  ghost predicate Wins<T(!new)>(xs: seq<Option<T>>, key: T -> Bytes, i: int, x: T) {
    States(xs, i, x) && forall j, y :: i < j && States(xs, j, y) ==> key(y) != key(x)
  }

  ghost predicate Winner<T(!new)>(xs: seq<Option<T>>, key: T -> Bytes, x: T) {
    exists i :: Wins(xs, key, i, x)
  }

  ghost predicate Distinct<T>(ps: seq<T>, key: T -> Bytes) {
    forall i, j :: 0 <= i < j < |ps| ==> key(ps[i]) != key(ps[j])
  }

  lemma WinnerStep<T(!new)>(xs: seq<Option<T>>, key: T -> Bytes, last: Option<T>, x: T)
    ensures Winner(xs + [last], key, x) <==>
            if last.Some? && key(last.value) == key(x) then last == Some(x) else Winner(xs, key, x)
  {
    var longer := xs + [last];
    assert forall j, y :: j < |xs| ==> (States(xs, j, y) <==> States(longer, j, y));
    if last.Some? && key(last.value) == key(x) {
      assert States(longer, |xs|, last.value);
      if last == Some(x) {
        assert Wins(longer, key, |xs|, x);
      }
    } else {
      if i :| Wins(longer, key, i, x) {
        assert Wins(xs, key, i, x);
      }
      if i :| Wins(xs, key, i, x) {
        assert Wins(longer, key, i, x);
      }
    }
  }

  /** One entry per key, and it is the last one stated for it. */
  lemma {:induction false} MergeExact<T(!new)>(xs: seq<Option<T>>, key: T -> Bytes)
    ensures Distinct(Merge(xs, key), key)
    ensures forall x :: x in Merge(xs, key) <==> Winner(xs, key, x)
  {
    if xs != [] {
      var n := |xs| - 1;
      MergeExact(xs[..n], key);
      assert xs == xs[..n] + [xs[n]];
      forall x ensures x in Merge(xs, key) <==> Winner(xs, key, x) {
        WinnerStep(xs[..n], key, xs[n], x);
        if xs[n].Some? {
          PlacedMembers(Merge(xs[..n], key), key, xs[n].value, x);
        }
      }
    }
  }

  lemma PlacedMembers<T(!new)>(ps: seq<T>, key: T -> Bytes, x: T, y: T)
    requires Distinct(ps, key)
    ensures y in Placed(ps, key, x) <==> y == x || (y in ps && key(y) != key(x))
  {
    var after := Placed(ps, key, x);
    var k := Position(ps, key, key(x));
    assert after[k] == x;
    if y in after && y != x {
      var i :| 0 <= i < |after| && after[i] == y;
      assert i != k && ps[i] == y;
    }
    if y in ps && key(y) != key(x) {
      var i :| 0 <= i < |ps| && ps[i] == y;
      assert after[i] == y;
    }
  }

  function Stated<T>(ps: seq<T>): (xs: seq<Option<T>>)
    ensures |xs| == |ps| && forall i :: 0 <= i < |ps| ==> xs[i] == Some(ps[i])
  {
    seq(|ps|, i requires 0 <= i < |ps| => Some(ps[i]))
  }

  /** A list without repeated keys is its own merge. */
  lemma {:induction false} MergeDistinct<T>(ps: seq<T>, key: T -> Bytes)
    requires Distinct(ps, key)
    ensures Merge(Stated(ps), key) == ps
  {
    if ps != [] {
      var n := |ps| - 1;
      MergeDistinct(ps[..n], key);
      assert Stated(ps)[..n] == Stated(ps[..n]);
      assert ps == ps[..n] + [ps[n]];
    }
  }

  /** Entry i is the first to state that key. */
  ghost predicate FirstStates<T>(xs: seq<Option<T>>, key: T -> Bytes, i: int, k: Bytes) {
    0 <= i < |xs| && xs[i].Some? && key(xs[i].value) == k
    && forall j :: 0 <= j < i && xs[j].Some? ==> key(xs[j].value) != k
  }

  /** Keys stand in the order they were first stated. */
  lemma {:induction false} MergeOrder<T(!new)>(xs: seq<Option<T>>, key: T -> Bytes, i: nat)
    requires i < |Merge(xs, key)|
    ensures exists at :: FirstStates(xs, key, at, key(Merge(xs, key)[i]))
    ensures forall at, later, j | i < j < |Merge(xs, key)| && FirstStates(xs, key, at, key(Merge(xs, key)[i]))
                                  && FirstStates(xs, key, later, key(Merge(xs, key)[j])) :: at < later
    decreases |xs|
  {
    var n := |xs| - 1;
    var front := xs[..n];
    var before, after := Merge(front, key), Merge(xs, key);
    MergeExact(front, key);
    assert forall m :: 0 <= m < n ==> front[m] == xs[m];
    assert forall m :: 0 <= m < |before| ==> key(after[m]) == key(before[m]);
    if i < |before| {
      MergeOrder(front, key, i);
      var at :| FirstStates(front, key, at, key(before[i]));
      assert FirstStates(xs, key, at, key(after[i]));
      forall a, later, j | i < j < |after| && FirstStates(xs, key, a, key(after[i]))
        && FirstStates(xs, key, later, key(after[j]))
        ensures a < later
      {
        assert a == at;
        if j < |before| {
          MergeOrder(front, key, j);
          var was :| FirstStates(front, key, was, key(before[j]));
          assert was == later;
        } else {
          NewKeyIsUnstated(front, key, xs[n].value);
        }
      }
    } else {
      assert xs[n].Some? && after == before + [xs[n].value];
      NewKeyIsUnstated(front, key, xs[n].value);
      assert FirstStates(xs, key, n, key(after[i]));
    }
  }

  lemma {:induction false} KeyIsListed<T(!new)>(xs: seq<Option<T>>, key: T -> Bytes, m: nat)
    requires m < |xs| && xs[m].Some?
    ensures exists i :: 0 <= i < |Merge(xs, key)| && key(Merge(xs, key)[i]) == key(xs[m].value)
  {
    var n := |xs| - 1;
    var before, after := Merge(xs[..n], key), Merge(xs, key);
    assert forall i :: 0 <= i < |before| ==> key(after[i]) == key(before[i]);
    if m < n {
      KeyIsListed(xs[..n], key, m);
    } else {
      assert key(after[Position(before, key, key(xs[m].value))]) == key(xs[m].value);
    }
  }

  lemma NewKeyIsUnstated<T(!new)>(xs: seq<Option<T>>, key: T -> Bytes, x: T)
    requires Position(Merge(xs, key), key, key(x)) == |Merge(xs, key)|
    ensures forall m :: 0 <= m < |xs| && xs[m].Some? ==> key(xs[m].value) != key(x)
  {
    forall m | 0 <= m < |xs| && xs[m].Some? ensures key(xs[m].value) != key(x) {
      KeyIsListed(xs, key, m);
    }
  }

  // ------------------------------------------------------------ reordering

  /** b lists the entries of a in another order: entry i of b is entry order[i] of a. */
  ghost predicate Reorders<X>(order: seq<nat>, a: seq<X>, b: seq<X>) {
    && |order| == |a| == |b|
    && (forall i :: 0 <= i < |b| ==> order[i] < |a| && b[i] == a[order[i]])
    && (forall i, j :: 0 <= i < j < |b| ==> order[i] != order[j])
    && (forall m :: 0 <= m < |a| ==> m in order)
  }

  /** No two items state the same key. */
  ghost predicate KeysDiffer<T(!new)>(xs: seq<Option<T>>, key: T -> Bytes) {
    forall i, j, x, y :: i != j && States(xs, i, x) && States(xs, j, y) ==> key(x) != key(y)
  }

  lemma ReorderedGather<T, E>(order: seq<nat>, a: seq<Bytes>, b: seq<Bytes>, parse: ItemParser<T, E>)
    requires Reorders(order, a, b) && Gather(a, parse).Ok?
    ensures Gather(b, parse).Ok? && Reorders(order, Gather(a, parse).value, Gather(b, parse).value)
  {
    GatherOk(a, parse);
    GatherOk(b, parse);
  }

  lemma ReorderedWinners<T(!new)>(order: seq<nat>, xs: seq<Option<T>>, ys: seq<Option<T>>, key: T -> Bytes)
    requires Reorders(order, xs, ys) && KeysDiffer(xs, key)
    ensures forall x :: Winner(xs, key, x) <==> Winner(ys, key, x)
  {
    forall i, j, x, y | i != j && States(ys, i, x) && States(ys, j, y) ensures key(x) != key(y) {
      assert States(xs, order[i], x) && States(xs, order[j], y);
    }
    forall x ensures Winner(xs, key, x) <==> Winner(ys, key, x) {
      if i :| States(ys, i, x) {
        assert States(xs, order[i], x);
        assert Wins(xs, key, order[i], x) && Wins(ys, key, i, x);
      }
      if m :| States(xs, m, x) {
        assert m in order;
        var i :| 0 <= i < |order| && order[i] == m;
        assert States(ys, i, x);
      }
    }
  }
}

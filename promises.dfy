// `files.map(...)` followed by `Promise.all`, over outcomes already settled: the
// callbacks' outcomes are listed in the order the callbacks ran, each either the
// items the callback pushed or the error it rejected with.
module Promises {
  import opened Wrappers

  // `xs.map(f)`.
  function Map<A, B>(f: A -> B, xs: seq<A>): (ys: seq<B>)
    ensures |ys| == |xs|
  {
    if xs == [] then [] else [f(xs[0])] + Map(f, xs[1..])
  }

  // The outcome of the i-th file is the callback's outcome for that file.
  lemma {:induction false} MapAt<A, B>(f: A -> B, xs: seq<A>, i: nat)
    requires i < |xs|
    ensures Map(f, xs)[i] == f(xs[i])
    decreases i
  {
    if i > 0 {
      MapAt(f, xs[1..], i - 1);
    }
  }

  // Mapping distributes over concatenation.
  lemma {:induction false} MapConcat<A, B>(f: A -> B, a: seq<A>, b: seq<A>)
    ensures Map(f, a + b) == Map(f, a) + Map(f, b)
    decreases |a|
  {
    if a == [] {
      assert a + b == b;
    } else {
      assert (a + b)[1..] == a[1..] + b;
      MapConcat(f, a[1..], b);
    }
  }

  // Every outcome is the callback's outcome for its file.
  lemma MapElements<A, B>(f: A -> B, xs: seq<A>)
    ensures forall i :: 0 <= i < |xs| ==> Map(f, xs)[i] == f(xs[i])
  {
    forall i | 0 <= i < |xs|
      ensures Map(f, xs)[i] == f(xs[i])
    {
      MapAt(f, xs, i);
    }
  }

  // Mapping a sequence with a given first element.
  lemma MapCons<A, B>(f: A -> B, x: A, xs: seq<A>)
    ensures Map(f, [x] + xs) == [f(x)] + Map(f, xs)
  {
    assert ([x] + xs)[1..] == xs;
  }

  // The outcomes around one file: those before it, its own, and those after it.
  lemma MapAround<A, B>(f: A -> B, xs: seq<A>, k: nat)
    requires k < |xs|
    ensures Map(f, xs) == Map(f, xs[..k]) + [f(xs[k])] + Map(f, xs[k + 1..])
  {
    var before, x, after := xs[..k], xs[k], xs[k + 1..];
    SplitAround(xs, k);
    MapConcat(f, before, [x] + after);
    MapCons(f, x, after);
    ConcatAssoc(Map(f, before), [f(x)], Map(f, after));
  }

  // Concatenation regroups. Kept as a lemma of its own (like SplitAround) so that the
  // sequence identity is proved apart from the unfoldings of Map and All that use it.
  lemma ConcatAssoc<T>(a: seq<T>, b: seq<T>, c: seq<T>)
    ensures a + (b + c) == a + b + c
  {
  }

  // A sequence is what comes before position `k`, the element at `k`, and what follows.
  // Proved on its own for the reason given at ConcatAssoc.
  lemma SplitAround<T>(s: seq<T>, k: nat)
    requires k < |s|
    ensures s == s[..k] + ([s[k]] + s[k + 1..])
  {
  }

  // Slicing the outcomes is mapping the sliced files.
  lemma MapSlices<A, B>(f: A -> B, xs: seq<A>, i: nat)
    requires i < |xs|
    ensures Map(f, xs)[..i] == Map(f, xs[..i])
    ensures Map(f, xs)[i + 1..] == Map(f, xs[i + 1..])
  {
    MapAround(f, xs, i);
    var before, after := Map(f, xs[..i]), Map(f, xs[i + 1..]);
    assert |before| == i;
    assert (before + [f(xs[i])] + after)[..i] == before;
    assert (before + [f(xs[i])] + after)[i + 1..] == after;
  }

  // Removing the same element from two permutations of each other leaves permutations.
  lemma MultisetRemove<T>(a: seq<T>, b: seq<T>, k: nat)
    requires multiset(a) == multiset(b) && a != [] && k < |b| && b[k] == a[0]
    ensures multiset(a[1..]) == multiset(b[..k] + b[k + 1..])
  {
    assert a == [a[0]] + a[1..];
    assert b == b[..k] + [b[k]] + b[k + 1..];
    calc {
      multiset(a[1..]);
      multiset(a) - multiset{a[0]};
      multiset(b) - multiset{a[0]};
      multiset(b[..k]) + multiset(b[k + 1..]);
      multiset(b[..k] + b[k + 1..]);
    }
  }

  // Mapping two permutations of each other gives permutations of each other.
  lemma {:induction false} MapPermutes<A, B>(f: A -> B, a: seq<A>, b: seq<A>)
    requires multiset(a) == multiset(b)
    ensures multiset(Map(f, a)) == multiset(Map(f, b))
    decreases |a|
  {
    if a == [] {
      assert b == [] by { assert |b| == |multiset(b)|; }
    } else {
      var x := a[0];
      assert x in multiset(b);
      var k :| 0 <= k < |b| && b[k] == x;
      var rest := b[..k] + b[k + 1..];
      assert multiset(Map(f, a)) == multiset{f(x)} + multiset(Map(f, a[1..])) by {
        assert Map(f, a) == [f(x)] + Map(f, a[1..]);
      }
      assert multiset(Map(f, a[1..])) == multiset(Map(f, rest)) by {
        MultisetRemove(a, b, k);
        MapPermutes(f, a[1..], rest);
      }
      assert multiset(Map(f, rest)) == multiset(Map(f, b[..k])) + multiset(Map(f, b[k + 1..])) by {
        MapConcat(f, b[..k], b[k + 1..]);
      }
      assert multiset(Map(f, b)) == multiset(Map(f, b[..k])) + multiset{f(x)} + multiset(Map(f, b[k + 1..])) by {
        MapAround(f, b, k);
      }
    }
  }

  // `Promise.all` over the callbacks: everything they pushed, in the order they ran, or the
  // rejection of the first one that rejected.
  function All<T, E>(rs: seq<Result<seq<T>, E>>): (r: Result<seq<T>, E>)
    ensures r.Err? ==> exists i :: 0 <= i < |rs| && rs[i] == Err(r.error)
  {
    if rs == [] then Ok([])
    else
      match All(rs[..|rs| - 1])
      case Err(e) => Err(e)
      case Ok(items) =>
        match rs[|rs| - 1]
        case Err(e) => Err(e)
        case Ok(more) => Ok(items + more)
  }

  // Settling `a + b` settles `a`, then `b`: it succeeds exactly when both do, and then the
  // items of `a` come first.
  lemma {:induction false} AllConcat<T, E>(a: seq<Result<seq<T>, E>>, b: seq<Result<seq<T>, E>>)
    ensures All(a + b).Ok? <==> All(a).Ok? && All(b).Ok?
    ensures All(a + b).Ok? ==> All(a + b).value == All(a).value + All(b).value
    decreases |b|
  {
    if b == [] {
      assert a + b == a;
    } else {
      var init := b[..|b| - 1];
      AllConcat(a, init);
      assert (a + b)[..|a + b| - 1] == a + init;
      assert (a + b)[|a + b| - 1] == b[|b| - 1];
    }
  }

  lemma AllSingle<T, E>(r: Result<seq<T>, E>)
    ensures All([r]) == r
  {
    assert [r][..0] == [];
    match r
    case Ok(v) => assert [] + v == v;
    case Err(_) =>
  }

  // `Promise.all` succeeds exactly when every callback succeeds: there is no partial result.
  lemma {:induction false} AllOkIff<T, E>(rs: seq<Result<seq<T>, E>>)
    ensures All(rs).Ok? <==> forall i :: 0 <= i < |rs| ==> rs[i].Ok?
    decreases |rs|
  {
    if rs != [] {
      var init := rs[..|rs| - 1];
      AllOkIff(init);
      if All(rs).Ok? {
        forall i | 0 <= i < |rs| ensures rs[i].Ok? {
          if i < |rs| - 1 {
            assert rs[i] == init[i];
          }
        }
      } else if All(init).Err? {
        var i :| 0 <= i < |init| && init[i].Err?;
        assert rs[i] == init[i];
      }
    }
  }

  // On success each callback's items form one contiguous block, in the order it pushed
  // them, after the items of the callbacks that ran before it.
  lemma AllContiguous<T, E>(rs: seq<Result<seq<T>, E>>, i: nat)
    requires i < |rs| && All(rs).Ok?
    ensures rs[i].Ok? && All(rs[..i]).Ok? && All(rs[i + 1..]).Ok?
    ensures All(rs).value == All(rs[..i]).value + rs[i].value + All(rs[i + 1..]).value
  {
    SplitAround(rs, i);
    AllAround(rs[..i], rs[i], rs[i + 1..]);
  }

  // `Promise.all` around one callback: the callbacks before it, its own outcome, and the
  // callbacks after it.
  lemma AllAround<T, E>(before: seq<Result<seq<T>, E>>, r: Result<seq<T>, E>, after: seq<Result<seq<T>, E>>)
    ensures All(before + ([r] + after)).Ok? <==> All(before).Ok? && r.Ok? && All(after).Ok?
    ensures All(before + ([r] + after)).Ok? ==>
      All(before + ([r] + after)).value == All(before).value + r.value + All(after).value
  {
    AllConcat(before, [r] + after);
    AllConcat([r], after);
    AllSingle(r);
    if All(before + ([r] + after)).Ok? {
      ConcatAssoc(All(before).value, r.value, All(after).value);
    }
  }

  // Settling one more callback after `i` that all fulfilled: its items are appended, or its
  // rejection becomes the outcome.
  lemma AllStep<T, E>(rs: seq<Result<seq<T>, E>>, i: nat)
    requires i < |rs| && All(rs[..i]).Ok?
    ensures rs[i].Ok? ==> All(rs[..i + 1]) == Ok(All(rs[..i]).value + rs[i].value)
    ensures rs[i].Err? ==> All(rs[..i + 1]) == rs[i]
  {
    assert rs[..i + 1][..i] == rs[..i];
  }

  // A rejection among the first `n` callbacks is the rejection of the whole `Promise.all`.
  lemma {:induction false} AllPrefixErr<T, E>(rs: seq<Result<seq<T>, E>>, n: nat)
    requires n <= |rs| && All(rs[..n]).Err?
    ensures All(rs) == All(rs[..n])
    decreases |rs| - n
  {
    if n < |rs| {
      assert rs[..n + 1][..n] == rs[..n];
      AllPrefixErr(rs, n + 1);
    } else {
      assert rs[..n] == rs;
    }
  }

  // The order in which the callbacks finish does not matter: two orders of the same
  // outcomes both succeed or both fail, and on success hold the same items up to order.
  lemma {:induction false} AllOrderIrrelevant<T, E>(a: seq<Result<seq<T>, E>>, b: seq<Result<seq<T>, E>>)
    requires multiset(a) == multiset(b)
    ensures All(a).Ok? <==> All(b).Ok?
    ensures All(a).Ok? ==> multiset(All(a).value) == multiset(All(b).value)
    decreases |a|
  {
    if a == [] {
      assert b == [] by { assert |b| == |multiset(b)|; }
    } else {
      var r := a[0];
      assert r in multiset(b);
      var k :| 0 <= k < |b| && b[k] == r;
      var b' := b[..k] + b[k + 1..];
      MultisetRemove(a, b, k);
      AllOrderIrrelevant(a[1..], b');
      assert a == [r] + a[1..];
      assert b == (b[..k] + [r]) + b[k + 1..];
      AllConcat([r], a[1..]);
      AllConcat(b[..k], b[k + 1..]);
      AllConcat(b[..k] + [r], b[k + 1..]);
      AllConcat(b[..k], [r]);
      AllSingle(r);
    }
  }

  // The callback whose items include `t`.
  lemma {:induction false} AllItemSource<T, E>(rs: seq<Result<seq<T>, E>>, t: T) returns (i: nat)
    requires All(rs).Ok? && t in All(rs).value
    ensures i < |rs| && rs[i].Ok? && t in rs[i].value
    decreases |rs|
  {
    var init := rs[..|rs| - 1];
    if t in All(init).value {
      i := AllItemSource(init, t);
      assert rs[i] == init[i];
    } else {
      i := |rs| - 1;
    }
  }
}

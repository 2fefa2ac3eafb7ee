/** Sequences of records, written one behind the other and taken off the front again. */
module Records {
  import opened Bytes

  /** Takes a record off the front, and gives what is left. */
  type Taker<!T> = seq<byte> -> Option<(T, seq<byte>)>

  function TakeMany<T>(take: Taker<T>, s: seq<byte>, n: nat): Option<(seq<T>, seq<byte>)>
    decreases n
  {
    if n == 0 then Some(([], s))
    else
      match take(s)
      case None => None
      case Some((first, rest)) => Behind([first], TakeMany(take, rest, n - 1))
  }

  /** More behind those already taken. */
  function Behind<T>(front: seq<T>, more: Option<(seq<T>, seq<byte>)>): Option<(seq<T>, seq<byte>)> {
    match more
    case None => None
    case Some((xs, end)) => Some((front + xs, end))
  }

  function WriteMany<T>(write: T -> seq<byte>, xs: seq<T>): seq<byte> {
    if xs == [] then [] else write(xs[0]) + WriteMany(write, xs[1..])
  }

  /** What is written is taken back; some values leave nothing behind, and nothing comes of nothing. */
  ghost predicate Inverse<T(!new)>(take: Taker<T>, write: T -> seq<byte>, present: T -> bool) {
    && take([]) == None
    && (forall x :: !present(x) ==> write(x) == [])
    && (forall x, rest :: present(x) ==> take(write(x) + rest) == Some((x, rest)))
  }

  function Present<T>(present: T -> bool, xs: seq<T>): (n: nat)
    ensures n <= |xs|
  {
    if xs == [] then 0 else Present(present, xs[1..]) + if present(xs[0]) then 1 else 0
  }

  lemma BehindTwice<T>(first: T, front: seq<T>, more: Option<(seq<T>, seq<byte>)>)
    ensures Behind([first], Behind(front, more)) == Behind([first] + front, more)
  {
    if more.Some? {
      Assoc([first], front, more.value.0);
    }
  }

  lemma BehindNothing<T>(more: Option<(seq<T>, seq<byte>)>)
    ensures Behind([], more) == more
  {
    if more.Some? {
      assert [] + more.value.0 == more.value.0;
    }
  }

  lemma TakeFirst<T(!new)>(take: Taker<T>, write: T -> seq<byte>, present: T -> bool, x: T, rest: seq<byte>, n: nat)
    requires Inverse(take, write, present) && present(x) && n > 0
    ensures TakeMany(take, write(x) + rest, n) == Behind([x], TakeMany(take, rest, n - 1))
  {
  }

  /** Records that are all present come back in order, whatever is taken after them. */
  lemma {:induction false} TakeBack<T(!new)>(
    take: Taker<T>, write: T -> seq<byte>, present: T -> bool, xs: seq<T>, rest: seq<byte>, more: nat)
    requires Inverse(take, write, present) && Present(present, xs) == |xs|
    ensures TakeMany(take, WriteMany(write, xs) + rest, |xs| + more) == Behind(xs, TakeMany(take, rest, more))
  {
    if xs == [] {
      assert [] + rest == rest;
      BehindNothing(TakeMany(take, rest, more));
    } else {
      TakeBack(take, write, present, xs[1..], rest, more);
      Assoc(write(xs[0]), WriteMany(write, xs[1..]), rest);
      TakeFirst(take, write, present, xs[0], WriteMany(write, xs[1..]) + rest, |xs| + more);
      BehindTwice(xs[0], xs[1..], TakeMany(take, rest, more));
      assert [xs[0]] + xs[1..] == xs;
    }
  }

  lemma TakeAllBack<T(!new)>(take: Taker<T>, write: T -> seq<byte>, present: T -> bool, xs: seq<T>, rest: seq<byte>)
    requires Inverse(take, write, present) && Present(present, xs) == |xs|
    ensures TakeMany(take, WriteMany(write, xs) + rest, |xs|) == Some((xs, rest))
  {
    TakeBack(take, write, present, xs, rest, 0);
    assert xs + [] == xs;
  }

  /** With nothing behind them, exactly as many records can be taken as are present. */
  lemma {:induction false} TakeAtMost<T(!new)>(
    take: Taker<T>, write: T -> seq<byte>, present: T -> bool, xs: seq<T>, n: nat)
    requires Inverse(take, write, present)
    ensures TakeMany(take, WriteMany(write, xs), n).Some? <==> n <= Present(present, xs)
  {
    if xs != [] && n > 0 {
      if present(xs[0]) {
        TakeAtMost(take, write, present, xs[1..], n - 1);
        TakeFirst(take, write, present, xs[0], WriteMany(write, xs[1..]), n);
      } else {
        TakeAtMost(take, write, present, xs[1..], n);
        assert [] + WriteMany(write, xs[1..]) == WriteMany(write, xs[1..]);
      }
    }
  }

  /** One that is not present leaves the others as they are. */
  lemma {:induction false} Without<T(!new)>(
    take: Taker<T>, write: T -> seq<byte>, present: T -> bool, xs: seq<T>, i: nat)
    requires Inverse(take, write, present) && i < |xs| && !present(xs[i])
    ensures WriteMany(write, xs) == WriteMany(write, xs[..i] + xs[i + 1..])
    ensures Present(present, xs) == Present(present, xs[..i] + xs[i + 1..])
  {
    if i == 0 {
      assert xs[..0] + xs[1..] == xs[1..];
      assert [] + WriteMany(write, xs[1..]) == WriteMany(write, xs[1..]);
    } else {
      Without(take, write, present, xs[1..], i - 1);
      assert (xs[..i] + xs[i + 1..])[1..] == xs[1..][..i - 1] + xs[1..][i..];
    }
  }

  lemma {:induction false} AllThere<T(!new)>(present: T -> bool, xs: seq<T>)
    ensures Present(present, xs) == |xs| <==> forall k :: 0 <= k < |xs| ==> present(xs[k])
  {
    if xs != [] {
      AllThere(present, xs[1..]);
      assert forall j :: 1 <= j < |xs| ==> xs[j] == xs[1..][j - 1];
    }
  }

  // ---------- When some are missing ----------

  /** Those that are present. */
  function Kept<T>(present: T -> bool, xs: seq<T>): seq<T> {
    if xs == [] then [] else (if present(xs[0]) then [xs[0]] else []) + Kept(present, xs[1..])
  }

  lemma {:induction false} KeptWrites<T(!new)>(take: Taker<T>, write: T -> seq<byte>, present: T -> bool, xs: seq<T>)
    requires Inverse(take, write, present)
    ensures WriteMany(write, Kept(present, xs)) == WriteMany(write, xs)
  {
    if xs != [] {
      KeptWrites(take, write, present, xs[1..]);
      if present(xs[0]) {
        assert ([xs[0]] + Kept(present, xs[1..]))[1..] == Kept(present, xs[1..]);
      } else {
        assert [] + Kept(present, xs[1..]) == Kept(present, xs[1..]);
        assert [] + WriteMany(write, xs[1..]) == WriteMany(write, xs[1..]);
      }
    }
  }

  lemma {:induction false} KeptCount<T(!new)>(present: T -> bool, xs: seq<T>)
    ensures |Kept(present, xs)| == Present(present, xs) == Present(present, Kept(present, xs))
  {
    if xs != [] {
      KeptCount(present, xs[1..]);
      if present(xs[0]) {
        assert ([xs[0]] + Kept(present, xs[1..]))[1..] == Kept(present, xs[1..]);
      } else {
        assert [] + Kept(present, xs[1..]) == Kept(present, xs[1..]);
      }
    }
  }

  lemma {:induction false} KeptSplits<T(!new)>(present: T -> bool, a: seq<T>, b: seq<T>)
    ensures Kept(present, a + b) == Kept(present, a) + Kept(present, b)
    ensures Present(present, a + b) == Present(present, a) + Present(present, b)
  {
    if a == [] {
      assert a + b == b;
    } else {
      KeptSplits(present, a[1..], b);
      assert (a + b)[1..] == a[1..] + b;
      Assoc(if present(a[0]) then [a[0]] else [], Kept(present, a[1..]), Kept(present, b));
    }
  }

  lemma {:induction false} KeptAll<T(!new)>(present: T -> bool, xs: seq<T>)
    requires Present(present, xs) == |xs|
    ensures Kept(present, xs) == xs
  {
    if xs != [] {
      KeptAll(present, xs[1..]);
      assert [xs[0]] + xs[1..] == xs;
    }
  }

  lemma {:induction false} NoneThere<T(!new)>(present: T -> bool, xs: seq<T>)
    requires Present(present, xs) == 0
    ensures forall k :: 0 <= k < |xs| ==> !present(xs[k])
  {
    if xs != [] {
      NoneThere(present, xs[1..]);
      assert forall j :: 1 <= j < |xs| ==> xs[j] == xs[1..][j - 1];
    }
  }

  /** The first `p` of them are those present. */
  predicate InFront<T>(present: T -> bool, xs: seq<T>) {
    var p := Present(present, xs);
    Present(present, xs[..p]) == p
  }

  lemma KeptInFront<T(!new)>(present: T -> bool, xs: seq<T>)
    ensures InFront(present, xs) <==> Kept(present, xs) == xs[..Present(present, xs)]
    ensures InFront(present, xs) ==> Present(present, xs[Present(present, xs)..]) == 0
  {
    var p := Present(present, xs);
    var a, b := xs[..p], xs[p..];
    assert a + b == xs;
    KeptCount(present, xs);
    KeptSplits(present, a, b);
    if InFront(present, xs) {
      KeptAll(present, a);
      KeptCount(present, b);
      assert a + [] == a;
    }
  }

  /** The last one only is missing. */
  lemma LastMissing<T(!new)>(present: T -> bool, xs: seq<T>)
    requires |xs| > 0 && !present(xs[|xs| - 1]) && Present(present, xs[..|xs| - 1]) == |xs| - 1
    ensures Present(present, xs) == |xs| - 1 && InFront(present, xs) && xs[|xs| - 1..] == [xs[|xs| - 1]]
  {
    var n := |xs| - 1;
    assert xs[..n] + [xs[n]] == xs;
    assert [xs[n]][1..] == [];
    KeptSplits(present, xs[..n], [xs[n]]);
  }

  lemma {:induction false} TakenCount<T(!new)>(take: Taker<T>, s: seq<byte>, n: nat)
    ensures TakeMany(take, s, n).Some? ==> |TakeMany(take, s, n).value.0| == n
    decreases n
  {
    if n > 0 && take(s).Some? {
      TakenCount(take, take(s).value.1, n - 1);
    }
  }

  lemma SplitTwice<T>(a: seq<T>, b: seq<T>, xs: seq<T>)
    requires |a| + |b| == |xs|
    ensures a + b == xs <==> a == xs[..|a|] && b == xs[|a|..]
  {
    assert xs[..|a|] + xs[|a|..] == xs;
    assert (a + b)[..|a|] == a;
    assert (a + b)[|a|..] == b;
  }

  lemma KeptTaken<T(!new)>(
    take: Taker<T>, write: T -> seq<byte>, present: T -> bool, xs: seq<T>, kept: seq<T>, rest: seq<byte>)
    requires Inverse(take, write, present) && kept == Kept(present, xs)
    ensures |kept| == Present(present, xs)
    ensures TakeMany(take, WriteMany(write, xs) + rest, |xs|) == Behind(kept, TakeMany(take, rest, |xs| - |kept|))
  {
    KeptWrites(take, write, present, xs);
    KeptCount(present, xs);
    var more := |xs| - |kept|;
    assert |kept| + more == |xs|;
    TakeBack(take, write, present, kept, rest, more);
  }

  lemma BehindIs<T(!new)>(front: seq<T>, more: Option<(seq<T>, seq<byte>)>, xs: seq<T>, end: seq<byte>)
    requires more.Some? ==> |front| + |more.value.0| == |xs|
    requires |front| <= |xs|
    ensures Behind(front, more) == Some((xs, end)) <==> front == xs[..|front|] && more == Some((xs[|front|..], end))
  {
    if more.Some? {
      SplitTwice(front, more.value.0, xs);
    }
  }

  /**
   * Exactly when as many records come back as were written, missing ones included: those missing are the last, and
   * what follows reads as them.
   */
  lemma TakenExactly<T(!new)>(
    take: Taker<T>, write: T -> seq<byte>, present: T -> bool, xs: seq<T>, rest: seq<byte>, end: seq<byte>)
    requires Inverse(take, write, present)
    ensures
      var p := Present(present, xs);
      TakeMany(take, WriteMany(write, xs) + rest, |xs|) == Some((xs, end))
      <==> InFront(present, xs) && TakeMany(take, rest, |xs| - p) == Some((xs[p..], end))
  {
    var kept := Kept(present, xs);
    KeptTaken(take, write, present, xs, kept, rest);
    TakenCount(take, rest, |xs| - |kept|);
    BehindIs(kept, TakeMany(take, rest, |xs| - |kept|), xs, end);
    KeptInFront(present, xs);
  }

  // ---------- What was taken was there ----------

  ghost predicate Exact<T(!new)>(take: Taker<T>, write: T -> seq<byte>, present: T -> bool) {
    forall s, x, rest :: present(x) && take(s) == Some((x, rest)) ==> s == write(x) + rest
  }

  lemma {:induction false} AllWereThere<T(!new)>(
    take: Taker<T>, write: T -> seq<byte>, present: T -> bool, s: seq<byte>, xs: seq<T>, end: seq<byte>)
    requires Exact(take, write, present) && Present(present, xs) == |xs|
    requires TakeMany(take, s, |xs|) == Some((xs, end))
    ensures s == WriteMany(write, xs) + end
    decreases |xs|
  {
    if xs == [] {
      assert [] + end == end;
    } else {
      var (first, rest) := take(s).value;
      var (more, _) := TakeMany(take, rest, |xs| - 1).value;
      assert [first] + more == xs;
      assert first == xs[0] && more == xs[1..];
      AllWereThere(take, write, present, rest, xs[1..], end);
      Assoc(write(first), WriteMany(write, xs[1..]), end);
    }
  }

  lemma TakenBack<T(!new)>(
    take: Taker<T>, write: T -> seq<byte>, present: T -> bool, s: seq<byte>, xs: seq<T>, end: seq<byte>)
    requires Inverse(take, write, present) && Exact(take, write, present) && Present(present, xs) == |xs|
    ensures TakeMany(take, s, |xs|) == Some((xs, end)) <==> s == WriteMany(write, xs) + end
  {
    if s == WriteMany(write, xs) + end {
      TakeAllBack(take, write, present, xs, end);
    } else if TakeMany(take, s, |xs|) == Some((xs, end)) {
      AllWereThere(take, write, present, s, xs, end);
    }
  }

  /**
   * The same where a missing record, too, has a form it could be read from: those missing are the last, and what
   * follows starts with just that.
   */
  lemma TakenFrom<T(!new)>(
    take: Taker<T>, write: T -> seq<byte>, present: T -> bool, raw: T -> seq<byte>, fits: T -> bool,
    xs: seq<T>, rest: seq<byte>, end: seq<byte>)
    requires Inverse(take, write, present) && Inverse(take, raw, fits) && Exact(take, raw, fits)
    requires forall k :: 0 <= k < |xs| ==> fits(xs[k])
    ensures TakeMany(take, WriteMany(write, xs) + rest, |xs|) == Some((xs, end))
       <==> InFront(present, xs) && rest == WriteMany(raw, xs[Present(present, xs)..]) + end
  {
    var missing := xs[Present(present, xs)..];
    TakenExactly(take, write, present, xs, rest, end);
    AllThere(fits, missing);
    TakenBack(take, raw, fits, rest, missing, end);
  }
}

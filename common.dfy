/** Shared datatypes and sequence helpers used by every part of the search engine model. */
module Common {

  datatype Option<+T> = None | Some(value: T)

  datatype Result<+T, +E> = Ok(value: T) | Err(error: E)

  /** The outcome of one HTTP GET: the parsed document, or a failure
      (transport error, timeout or a non-2xx status). */
  datatype Fetch<+T> = Loaded(document: T) | Failed

  function Min(a: int, b: int): int { if a <= b then a else b }

  function Max(a: int, b: int): int { if a >= b then a else b }

  /** The first `n` elements, or all of them when there are fewer:
      `substring(0, n)` on strings and `slice(0, n)` on arrays. */
  function Take<T>(xs: seq<T>, n: nat): (r: seq<T>)
    ensures |r| == Min(|xs|, n) && r == xs[..|r|]
  {
    if |xs| <= n then xs else xs[..n]
  }

  /** The position of the first element satisfying `p`: `Array.prototype.find`
      and `findIndex`. */
  function FirstIndex<T>(xs: seq<T>, p: T -> bool): (r: Option<nat>)
    ensures r.Some? ==> r.value < |xs| && p(xs[r.value])
    ensures r.Some? ==> forall j :: 0 <= j < r.value ==> !p(xs[j])
    ensures r.None? <==> forall j :: 0 <= j < |xs| ==> !p(xs[j])
    decreases |xs|
  {
    if xs == [] then None
    else if p(xs[0]) then Some(0)
    else
      match FirstIndex(xs[1..], p)
      case None =>
        assert forall j :: 1 <= j < |xs| ==> xs[j] == xs[1..][j - 1];
        None
      case Some(j) =>
        assert forall k :: 1 <= k < j + 1 ==> xs[k] == xs[1..][k - 1];
        Some(j + 1)
  }

  lemma SliceOfSlice<T>(s: seq<T>, off: nat, a: nat, n: nat)
    requires off + a + n <= |s|
    ensures s[off..][a..a + n] == s[off + a..off + a + n]
  {
    var x, y := s[off..][a..a + n], s[off + a..off + a + n];
    assert |x| == |y| == n;
    forall i | 0 <= i < n
      ensures x[i] == y[i]
    {
    }
  }

  lemma TakeCons<T>(x: T, xs: seq<T>, k: nat)
    requires k <= |xs|
    ensures ([x] + xs)[..k + 1] == [x] + xs[..k]
  {
  }

  /** `xs.map(f)`. */
  function Map<A, B>(xs: seq<A>, f: A -> B): (r: seq<B>)
    ensures |r| == |xs|
  {
    seq(|xs|, i requires 0 <= i < |xs| => f(xs[i]))
  }

  lemma MapSnoc<A, B>(xs: seq<A>, f: A -> B, i: nat)
    requires i < |xs|
    ensures Map(xs[..i + 1], f) == Map(xs[..i], f) + [f(xs[i])]
  {
    var l, r := Map(xs[..i + 1], f), Map(xs[..i], f) + [f(xs[i])];
    forall k | 0 <= k < |l|
      ensures l[k] == r[k]
    {
      assert xs[..i + 1][k] == xs[k];
      if k < i {
        assert xs[..i][k] == xs[k];
      }
    }
  }

  lemma MapCons<A, B>(x: A, xs: seq<A>, f: A -> B)
    ensures Map([x] + xs, f) == [f(x)] + Map(xs, f)
  {
    var l, r := Map([x] + xs, f), [f(x)] + Map(xs, f);
    forall i | 0 <= i < |l|
      ensures l[i] == r[i]
    {
      if i > 0 {
        assert ([x] + xs)[i] == xs[i - 1];
      }
    }
  }

  lemma MapAt<A, B>(xs: seq<A>, f: A -> B, k: nat)
    requires k < |xs|
    ensures Map(xs, f)[k] == f(xs[k])
  {
  }

  /** The present values of `xs`, in order (an order-preserving filter). */
  function Somes<T>(xs: seq<Option<T>>): (r: seq<T>)
    ensures |r| <= |xs|
    decreases |xs|
  {
    if xs == [] then []
    else
      var init := Somes(xs[..|xs| - 1]);
      match xs[|xs| - 1]
      case None => init
      case Some(x) => init + [x]
  }

  lemma SomesSnoc<T>(xs: seq<Option<T>>, x: Option<T>)
    ensures Somes(xs + [x]) == Somes(xs) + (if x.Some? then [x.value] else [])
  {
    assert (xs + [x])[..|xs|] == xs;
  }

  lemma {:induction false} SomesAppend<T>(xs: seq<Option<T>>, ys: seq<Option<T>>)
    ensures Somes(xs + ys) == Somes(xs) + Somes(ys)
    decreases |ys|
  {
    if ys == [] {
      assert xs + ys == xs;
    } else {
      var init, last := ys[..|ys| - 1], ys[|ys| - 1];
      assert ys == init + [last];
      assert xs + ys == (xs + init) + [last];
      SomesAppend(xs, init);
      SomesSnoc(xs + init, last);
      SomesSnoc(init, last);
    }
  }

  /** A property of every present element holds of every kept value. */
  lemma {:induction false} SomesKeep<T>(xs: seq<Option<T>>, p: T -> bool)
    requires forall i :: 0 <= i < |xs| && xs[i].Some? ==> p(xs[i].value)
    ensures forall j :: 0 <= j < |Somes(xs)| ==> p(Somes(xs)[j])
    decreases |xs|
  {
    if xs != [] {
      var init := xs[..|xs| - 1];
      assert forall i :: 0 <= i < |init| ==> init[i] == xs[i];
      SomesKeep(init, p);
    }
  }

  /** When every element is present, nothing is dropped. */
  lemma {:induction false} SomesAllPresent<T>(xs: seq<Option<T>>)
    requires forall i :: 0 <= i < |xs| ==> xs[i].Some?
    ensures |Somes(xs)| == |xs|
    ensures forall i :: 0 <= i < |xs| ==> Somes(xs)[i] == xs[i].value
    decreases |xs|
  {
    if xs != [] {
      SomesAllPresent(xs[..|xs| - 1]);
    }
  }

  /** Every kept value comes from a present element, the positions are strictly
      increasing (document order), and every present element is kept. */
  lemma {:induction false} SomesOrigin<T>(xs: seq<Option<T>>) returns (idx: seq<nat>)
    ensures |idx| == |Somes(xs)|
    ensures forall j :: 0 <= j < |idx| ==> idx[j] < |xs| && xs[idx[j]] == Some(Somes(xs)[j])
    ensures forall j, k :: 0 <= j < k < |idx| ==> idx[j] < idx[k]
    ensures forall i :: 0 <= i < |xs| && xs[i].Some? ==> i in idx
    decreases |xs|
  {
    if xs == [] {
      idx := [];
    } else {
      var init := xs[..|xs| - 1];
      var prev := SomesOrigin(init);
      assert forall i :: 0 <= i < |init| ==> init[i] == xs[i];
      if xs[|xs| - 1].Some? {
        idx := prev + [|xs| - 1];
      } else {
        idx := prev;
      }
    }
  }

  /** The first `n` present values come from present elements at strictly
      increasing positions, and a present element is left out only when `n`
      values were kept, all of them from earlier positions. */
  lemma TakeSomesOrigin<T>(xs: seq<Option<T>>, n: nat) returns (idx: seq<nat>)
    ensures |idx| == |Take(Somes(xs), n)| == Min(|Somes(xs)|, n)
    ensures forall j :: 0 <= j < |idx| ==> idx[j] < |xs| && xs[idx[j]] == Some(Take(Somes(xs), n)[j])
    ensures forall j, k :: 0 <= j < k < |idx| ==> idx[j] < idx[k]
    ensures forall i :: 0 <= i < |xs| && xs[i].Some? && i !in idx ==>
              |idx| == n && (n > 0 ==> idx[n - 1] < i)
  {
    var all := SomesOrigin(xs);
    var kept := Take(Somes(xs), n);
    idx := all[..|kept|];
    forall j | 0 <= j < |idx|
      ensures idx[j] < |xs| && xs[idx[j]] == Some(kept[j])
    {
      assert idx[j] == all[j] && kept[j] == Somes(xs)[j];
    }
    forall i | 0 <= i < |xs| && xs[i].Some?
      ensures i in idx || (|idx| == n && (n > 0 ==> idx[n - 1] < i))
    {
      var m :| 0 <= m < |all| && all[m] == i;
      if m < |kept| {
        assert idx[m] == i;
      } else if n > 0 {
        assert idx[n - 1] == all[n - 1];
      }
    }
  }

  /** The values of a sequence of optional entries, failing with the first error:
      what a loop does that maps each element, skips the absent ones and throws on
      the first failure. */
  function Gather<T, E>(es: seq<Result<Option<T>, E>>): (r: Result<seq<T>, E>)
    ensures r.Ok? ==> |r.value| <= |es|
    decreases |es|
  {
    if es == [] then Ok([])
    else
      match Gather(es[..|es| - 1])
      case Err(e) => Err(e)
      case Ok(init) =>
        match es[|es| - 1]
        case Err(e) => Err(e)
        case Ok(None) => Ok(init)
        case Ok(Some(x)) => Ok(init + [x])
  }

  /** The entries with errors read as absent. */
  function Present<T, E>(es: seq<Result<Option<T>, E>>): (r: seq<Option<T>>)
    ensures |r| == |es|
  {
    seq(|es|, i requires 0 <= i < |es| => if es[i].Ok? then es[i].value else None)
  }

  lemma GatherSnoc<T, E>(es: seq<Result<Option<T>, E>>, e: Result<Option<T>, E>)
    ensures Gather(es + [e]) ==
              match Gather(es)
              case Err(x) => Err(x)
              case Ok(init) =>
                match e
                case Err(x) => Err(x)
                case Ok(None) => Ok(init)
                case Ok(Some(v)) => Ok(init + [v])
  {
    assert (es + [e])[..|es|] == es;
  }

  /** `Gather` succeeds exactly when no entry is an error, and then keeps the
      present values in order; otherwise it fails with the first error. */
  lemma {:induction false} GatherMeaning<T, E>(es: seq<Result<Option<T>, E>>)
    ensures Gather(es).Ok? <==> forall i :: 0 <= i < |es| ==> es[i].Ok?
    ensures Gather(es).Ok? ==> Gather(es).value == Somes(Present(es))
    ensures Gather(es).Err? ==>
              exists i :: 0 <= i < |es| && es[i] == Err(Gather(es).error) && forall j :: 0 <= j < i ==> es[j].Ok?
    decreases |es|
  {
    if es != [] {
      var init := es[..|es| - 1];
      GatherMeaning(init);
      assert forall i :: 0 <= i < |init| ==> init[i] == es[i];
      assert Present(es) == Present(init) + [Present(es)[|es| - 1]];
      SomesSnoc(Present(init), Present(es)[|es| - 1]);
      if Gather(init).Err? {
        var i :| 0 <= i < |init| && init[i] == Err(Gather(init).error) && forall j :: 0 <= j < i ==> init[j].Ok?;
        assert es[i] == Err(Gather(es).error);
      } else if es[|es| - 1].Err? {
        assert es[|es| - 1] == Err(Gather(es).error);
      }
    }
  }

  /** Once a prefix has failed, the entries after it are never looked at. */
  lemma {:induction false} GatherErrPersists<T, E>(es: seq<Result<Option<T>, E>>, k: nat)
    requires k <= |es| && Gather(es[..k]).Err?
    ensures Gather(es) == Gather(es[..k])
    decreases |es|
  {
    if k < |es| {
      var init := es[..|es| - 1];
      assert init[..k] == es[..k];
      GatherErrPersists(init, k);
    } else {
      assert es[..k] == es;
    }
  }

  /** An absent entry in front changes nothing. */
  lemma {:induction false} GatherSkipsNone<T, E>(es: seq<Result<Option<T>, E>>)
    ensures Gather([Ok(None)] + es) == Gather(es)
    decreases |es|
  {
    var all := [Ok(None)] + es;
    if es == [] {
      assert all[..0] == [];
    } else {
      assert all[..|all| - 1] == [Ok(None)] + es[..|es| - 1];
      GatherSkipsNone(es[..|es| - 1]);
    }
  }

  /** When every entry is present, `Gather` keeps all of them, in order. */
  lemma GatherAllPresent<T, E>(es: seq<Result<Option<T>, E>>)
    requires forall i :: 0 <= i < |es| ==> es[i].Ok? && es[i].value.Some?
    ensures Gather(es).Ok? && |Gather(es).value| == |es|
    ensures forall i :: 0 <= i < |es| ==> Some(Gather(es).value[i]) == es[i].value
  {
    GatherMeaning(es);
    SomesAllPresent(Present(es));
  }
}

/** Option and Result types standing for Python's `None` and for the
    exceptions the modelled code raises and does not catch. */
module Results {

  datatype Option<+T> = None | Some(value: T) {
    function GetOr(default: T): T {
      match this
      case Some(v) => v
      case None => default
    }
  }

  /** The Python exceptions that can escape the modelled code. */
  datatype Error =
    | ValueError      // `strptime` on malformed text or an impossible date, `from_array` on a short list
    | IndexError      // `split(",")[1]` without a comma, `[-1]` on an empty list
    | AttributeError  // `.find_all` called on the `None` that `find("tr")` returned

  datatype Result<+T> = Ok(value: T) | Err(error: Error)

  /** The successful parts joined in order; the first failure, if any, is
      the result (a loop that extends a list and lets an exception escape). */
  function Concat<T>(rs: seq<Result<seq<T>>>): Result<seq<T>>
    decreases |rs|
  {
    if rs == [] then Ok([])
    else
      var prev := Concat(rs[..|rs| - 1]);
      if prev.Err? then prev
      else
        match rs[|rs| - 1]
        case Err(e) => Err(e)
        case Ok(xs) => Ok(prev.value + xs)
  }

  /** `Concat` succeeds exactly when every part does. */
  lemma {:induction false} ConcatOk<T>(rs: seq<Result<seq<T>>>)
    ensures Concat(rs).Ok? <==> forall i :: 0 <= i < |rs| ==> rs[i].Ok?
    decreases |rs|
  {
    if rs != [] {
      ConcatOk(rs[..|rs| - 1]);
      assert forall i :: 0 <= i < |rs| - 1 ==> rs[..|rs| - 1][i] == rs[i];
    }
  }

  /** `Concat` of two runs of parts is the concatenation of their results. */
  lemma {:induction false} ConcatAppend<T>(xs: seq<Result<seq<T>>>, ys: seq<Result<seq<T>>>)
    requires Concat(xs).Ok? && Concat(ys).Ok?
    ensures Concat(xs + ys) == Ok(Concat(xs).value + Concat(ys).value)
    decreases |ys|
  {
    if ys == [] {
      assert xs + ys == xs;
      assert Concat(xs).value + [] == Concat(xs).value;
    } else {
      var ys' := ys[..|ys| - 1];
      assert (xs + ys)[..|xs + ys| - 1] == xs + ys';
      assert (xs + ys)[|xs + ys| - 1] == ys[|ys| - 1];
      ConcatAppend(xs, ys');
      var a, b := Concat(xs).value, Concat(ys').value;
      assert a + b + ys[|ys| - 1].value == a + (b + ys[|ys| - 1].value);
    }
  }

  /** Once a prefix of the parts fails, the whole fails the same way. */
  lemma {:induction false} ConcatPrefixErr<T>(rs: seq<Result<seq<T>>>, k: nat)
    requires k <= |rs| && Concat(rs[..k]).Err?
    ensures Concat(rs) == Concat(rs[..k])
    decreases |rs|
  {
    if k < |rs| {
      var init := rs[..|rs| - 1];
      assert init[..k] == rs[..k];
      ConcatPrefixErr(init, k);
    } else {
      assert rs[..k] == rs;
    }
  }

  /** One more part, when everything before it succeeded. */
  lemma ConcatSnoc<T>(rs: seq<Result<seq<T>>>, x: Result<seq<T>>)
    requires Concat(rs).Ok?
    ensures Concat(rs + [x]) == if x.Err? then Err(x.error) else Ok(Concat(rs).value + x.value)
  {
    assert (rs + [x])[..|rs|] == rs;
  }

  /** `f` applied to every element, in order. */
  function Map<A, B>(f: A -> B, xs: seq<A>): (r: seq<B>)
    ensures |r| == |xs| && forall i :: 0 <= i < |xs| ==> r[i] == f(xs[i])
  {
    seq(|xs|, i requires 0 <= i < |xs| => f(xs[i]))
  }

  lemma MapAppend<A, B>(f: A -> B, xs: seq<A>, ys: seq<A>)
    ensures Map(f, xs + ys) == Map(f, xs) + Map(f, ys)
  {
  }

  /** A loop over `xs` that extends a list with the successful parts of
      `f` and lets the first failure escape: the step at index `i`. */
  lemma ConcatMapStep<A, T>(f: A -> Result<seq<T>>, xs: seq<A>, i: nat)
    requires i < |xs| && Concat(Map(f, xs[..i])).Ok?
    ensures f(xs[i]).Ok? ==> Concat(Map(f, xs[..i + 1])) == Ok(Concat(Map(f, xs[..i])).value + f(xs[i]).value)
    ensures f(xs[i]).Err? ==> Concat(Map(f, xs)) == Err(f(xs[i]).error)
  {
    assert xs[..i + 1] == xs[..i] + [xs[i]];
    MapAppend(f, xs[..i], [xs[i]]);
    ConcatSnoc(Map(f, xs[..i]), f(xs[i]));
    if f(xs[i]).Err? {
      assert Map(f, xs[..i + 1]) == Map(f, xs)[..i + 1];
      ConcatPrefixErr(Map(f, xs), i + 1);
    }
  }
}

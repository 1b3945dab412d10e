/**
 * Properties of the cause chain: what Unwrap returns for each constructor,
 * and a reference definition of Is as membership in the chain.
 */
module Chain {
  import opened Base
  import opened ErrStr

  /** The errors reached from `err` by repeated Unwrap, `err` first. */
  function Chain(err: Option<Error>): (c: seq<Error>)
    ensures err.None? <==> |c| == 0
    ensures err.Some? ==> c[0] == err.value
    decreases err
  {
    match err
    case None => []
    case Some(e) =>
      match e
      case Plain(_, _) => [e]
      case Annotated(s) => [e] + Chain(s.cause)
  }

  /** Some error on the chain of `err` is the very value `t`. */
  ghost predicate Reaches(err: Option<Error>, t: Error) {
    exists i | 0 <= i < |Chain(err)| :: Same(Chain(err)[i], t)
  }

  /** errors.Is with a non-nil target is membership in the cause chain. */
  lemma {:induction false} ErrorsIsReaches(err: Option<Error>, t: Error)
    ensures ErrorsIs(err, Some(t)) <==> Reaches(err, t)
    decreases err
  {
    match err
    case None =>
    case Some(e) =>
      assert Chain(err)[0] == e;
      if !Same(e, t) {
        match e
        case Plain(_, _) =>
        case Annotated(s) =>
          var c := Chain(err);
          assert c == [e] + Chain(s.cause);
          assert ErrorsIs(err, Some(t)) == IsWalk(e, t);
          assert Is(s, Some(t)) == ErrorsIs(s.cause, Some(t));
          if s.cause.Some? {
            assert ErrorsIs(s.cause, Some(t)) == IsWalk(s.cause.value, t);
          }
          assert IsWalk(e, t) == ErrorsIs(s.cause, Some(t));
          ErrorsIsReaches(s.cause, t);
          if Reaches(s.cause, t) {
            var i :| 0 <= i < |Chain(s.cause)| && Same(Chain(s.cause)[i], t);
            assert c[i + 1] == Chain(s.cause)[i];
          }
          if Reaches(err, t) {
            var i :| 0 <= i < |c| && Same(c[i], t);
            assert i > 0 && c[i] == Chain(s.cause)[i - 1];
          }
      }
  }

  /**
   * errorStr.Is: a nil target matches exactly when there is no cause; any
   * other target matches exactly when it lies on the chain of the cause.
   * The error itself is not consulted.
   */
  lemma IsSpec(e: ErrorStr, target: Option<Error>)
    ensures target.None? ==> (Is(e, target) <==> e.cause.None?)
    ensures target.Some? ==> (Is(e, target) <==> Reaches(e.cause, target.value))
  {
    if target.Some? {
      ErrorsIsReaches(e.cause, target.value);
    }
  }

  /** Is is false for a target whose identity appears nowhere on the cause chain. */
  lemma IsFalseOffChain(e: ErrorStr, t: Error)
    requires forall i | 0 <= i < |Chain(e.cause)| :: !Same(Chain(e.cause)[i], t)
    ensures !Is(e, Some(t))
  {
    ErrorsIsReaches(e.cause, t);
  }

  /** Wrap(c, m).Is(c) holds. */
  lemma WrapIsCause(c: Error, msg: string, skip: seq<Int64>, walk: seq<Site>, id: nat)
    ensures Is(Wrap(Some(c), msg, skip, walk, id), Some(c))
  {
    ErrorsIsReaches(Some(c), c);
    assert Chain(Some(c))[0] == c;
  }

  /** If e2 wraps e1 and e3 wraps e2, then e3.Is(e1). */
  lemma IsThroughTwoWraps(e1: Error, m2: string, m3: string, skip2: seq<Int64>, skip3: seq<Int64>,
                          walk2: seq<Site>, walk3: seq<Site>, id2: nat, id3: nat)
    ensures var e2 := Wrap(Some(e1), m2, skip2, walk2, id2);
            var e3 := Wrap(Some(Annotated(e2)), m3, skip3, walk3, id3);
            Is(e3, Some(e1)) && Is(e3, Some(Annotated(e2)))
  {
    var e2 := Wrap(Some(e1), m2, skip2, walk2, id2);
    var e3 := Wrap(Some(Annotated(e2)), m3, skip3, walk3, id3);
    var c := Chain(e3.cause);
    assert c == [Annotated(e2)] + Chain(Some(e1));
    assert c[1] == e1;
    ErrorsIsReaches(e3.cause, e1);
    ErrorsIsReaches(e3.cause, Annotated(e2));
  }

  /** Past an annotated error on a chain, the chain continues with that error's own cause chain. */
  lemma {:induction false} ChainSuffix(err: Option<Error>, i: nat)
    requires i < |Chain(err)| && Chain(err)[i].Annotated?
    ensures Chain(err)[i + 1..] == Chain(Chain(err)[i].str.cause)
    decreases err
  {
    match err
    case Some(Annotated(s)) =>
      if i > 0 {
        assert Chain(err)[1..] == Chain(s.cause);
        ChainSuffix(s.cause, i - 1);
        assert Chain(err)[i + 1..] == Chain(s.cause)[i..];
      }
  }

  /**
   * Is is transitive along the chain: when an error `x` on a's cause chain
   * matches a target, so does `a`.
   */
  lemma IsTransitive(a: ErrorStr, i: nat, x: ErrorStr, t: Error)
    requires i < |Chain(a.cause)| && Chain(a.cause)[i] == Annotated(x)
    requires Is(x, Some(t))
    ensures Is(a, Some(t))
  {
    ChainSuffix(a.cause, i);
    ErrorsIsReaches(x.cause, t);
    ErrorsIsReaches(a.cause, t);
    var j :| 0 <= j < |Chain(x.cause)| && Same(Chain(x.cause)[j], t);
    assert Chain(a.cause)[i + 1 + j] == Chain(x.cause)[j];
  }

  /** Unwrap returns the cause given to Wrap and Wrapf, and nil for New, Format and Errorf. */
  lemma UnwrapReturnsCause<V>(err: Option<Error>, msg: string, skip: seq<Int64>, n: Int64, f: string, a: seq<V>,
                              sprintf: (string, seq<V>) -> string, walk: seq<Site>, id: nat)
    ensures Unwrap(Wrap(err, msg, skip, walk, id)) == err
    ensures Unwrap(Wrapf(n, err, f, a, sprintf, walk, id)) == err
    ensures Unwrap(New(msg, skip, walk, id)) == None
    ensures Unwrap(Format(n, f, a, sprintf, walk, id)) == None
    ensures Unwrap(Errorf(f, a, sprintf, walk, id)) == None
  {
  }

  /** An error built by New or Format has an empty chain below it, so its Is matches only nil. */
  lemma FreshErrorMatchesOnlyNil(msg: string, skip: seq<Int64>, walk: seq<Site>, id: nat, t: Error)
    ensures !Is(New(msg, skip, walk, id), Some(t))
    ensures Is(New(msg, skip, walk, id), None)
  {
  }
}

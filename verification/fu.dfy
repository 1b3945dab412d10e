/**
 * The variadic selection helpers of fu.go. Each Go variadic parameter is a
 * sequence; each helper is a first-match scan or a two-way choice.
 */
module Fu {
  import Base

  /** Fnf: true as soon as one argument is true. */
  function Fnf(a: seq<bool>): (r: bool)
    ensures r <==> exists i | 0 <= i < |a| :: a[i]
  {
    if |a| == 0 then false
    else if a[0] then true
    else Fnf(a[1..])
  }

  /** Fne: the first argument of non-zero length, else the empty string. */
  function Fne(a: seq<string>): (r: string)
    ensures r == "" <==> forall i | 0 <= i < |a| :: a[i] == ""
    ensures r != "" ==> exists k | 0 <= k < |a| :: a[k] == r && forall j | 0 <= j < k :: a[j] == ""
  {
    if |a| == 0 then ""
    else if |a[0]| > 0 then a[0]
    else Fne(a[1..])
  }

  /**
   * Fnz: the first non-zero argument, else 0. The package-private fnz of
   * error.go is the same function; the error constructors use this one.
   */
  function Fnz(a: seq<int>): (r: int)
    ensures r == 0 <==> forall i | 0 <= i < |a| :: a[i] == 0
    ensures r != 0 ==> exists k | 0 <= k < |a| :: a[k] == r && forall j | 0 <= j < k :: a[j] == 0
  {
    if |a| == 0 then 0
    else if a[0] != 0 then a[0]
    else Fnz(a[1..])
  }

  /** Opti: the first optional argument if one is given, else the default. */
  function Opti(v: int, a: seq<int>): (r: int)
    ensures |a| > 0 ==> r == a[0]
    ensures |a| == 0 ==> r == v
  {
    if |a| > 0 then a[0] else v
  }

  /** Only the first optional argument is ever looked at. */
  lemma OptiIgnoresRest(v: int, a: seq<int>, rest: seq<int>)
    requires |a| > 0
    ensures Opti(v, a + rest) == Opti(v, a[..1]) == a[0]
  {
  }

  /** Ifs: the string selected by a boolean. */
  function Ifs(expr: bool, ontrue: string, onfalse: string): (r: string)
    ensures expr ==> r == ontrue
    ensures !expr ==> r == onfalse
  {
    if expr then ontrue else onfalse
  }

  /** Negating the condition swaps the two branches. */
  lemma IfsSwap(expr: bool, t: string, f: string)
    ensures Ifs(!expr, f, t) == Ifs(expr, t, f)
    ensures Ifs(expr, t, t) == t
  {
  }

  /** The name of a Go dynamic type; reflect.Type equality is tag equality. */
  type Tag = string

  /** A Go value with its dynamic type; the payload is left abstract. */
  datatype Value<P> = Value(tag: Tag, payload: P)

  /**
   * One element of the slice handed to Option, as reflect sees it: a value
   * of a concrete element type, or an interface slot that holds a value or
   * is nil.
   */
  datatype Elem<P> = Concrete(v: Value<P>) | Iface(held: Base.Option<Value<P>>)

  /** The element after the reflect.Interface case has taken Elem(); None is the invalid reflect.Value of a nil slot. */
  function Unbox<P>(e: Elem<P>): Base.Option<Value<P>> {
    match e
    case Concrete(v) => Base.Some(v)
    case Iface(h) => h
  }

  /** The scan moves past `e`: it is a valid value of another type. */
  ghost predicate Passes<P>(e: Elem<P>, tag: Tag) {
    Unbox(e).Some? && Unbox(e).value.tag != tag
  }

  /** Index `k` is where the scan stops: the first element that does not pass. */
  ghost predicate StopsAt<P>(xs: seq<Elem<P>>, k: int, tag: Tag) {
    0 <= k < |xs| && !Passes(xs[k], tag) && forall j | 0 <= j < k :: Passes(xs[j], tag)
  }

  /**
   * Option: the first element whose dynamic type equals the type of `t`,
   * looking through interface slots; `t` itself when none matches. A nil
   * `t` (None) or a nil interface slot makes reflect's Type() panic as soon
   * as the scan compares against it. The result None is the invalid
   * reflect.Value that ValueOf(nil) returns.
   */
  function Option<P>(t: Base.Option<Value<P>>, xs: seq<Elem<P>>): (r: Base.Outcome<Base.Option<Value<P>>>)
    ensures t.None? ==> r == (if |xs| == 0 then Base.Returned(t) else Base.Panicked)
    ensures t.Some? && (forall i | 0 <= i < |xs| :: Passes(xs[i], t.value.tag)) ==> r == Base.Returned(t)
    ensures t.Some? ==> forall k | StopsAt(xs, k, t.value.tag) ::
      r == (if Unbox(xs[k]).None? then Base.Panicked else Base.Returned(Unbox(xs[k])))
  {
    if |xs| == 0 then Base.Returned(t)
    else
      match Unbox(xs[0])
      case None => Base.Panicked
      case Some(x) =>
        if t.None? then Base.Panicked
        else if x.tag == t.value.tag then Base.Returned(Base.Some(x))
        else
          assert forall k | StopsAt(xs, k, t.value.tag) :: k > 0 && StopsAt(xs[1..], k - 1, t.value.tag);
          Option(t, xs[1..])
  }

  /** When the scan does not pass every element, it stops at some index. */
  lemma {:induction false} SomeStop<P>(xs: seq<Elem<P>>, tag: Tag)
    requires exists i | 0 <= i < |xs| :: !Passes(xs[i], tag)
    ensures exists k :: StopsAt(xs, k, tag)
    decreases |xs|
  {
    if Passes(xs[0], tag) {
      var i :| 0 <= i < |xs| && !Passes(xs[i], tag);
      assert !Passes(xs[1..][i - 1], tag);
      SomeStop(xs[1..], tag);
      var k :| StopsAt(xs[1..], k, tag);
      assert StopsAt(xs, k + 1, tag);
    } else {
      assert StopsAt(xs, 0, tag);
    }
  }
}

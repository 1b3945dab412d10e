/**
 * The annotated error of error.go: a message, an optional wrapped cause and
 * the call-site records captured at construction.
 *
 * Pointer identity is modelled by explicit ids: every allocation (an
 * errorStr from a constructor, an errors.New value from ErrorOf) is given a
 * fresh id by its caller, and two errors are the same Go value exactly when
 * their ids agree.
 *
 * The call stack is modelled as already-resolved records. A constructor is
 * given `walk`, the stack as runtime.Callers walks it while that constructor
 * runs: walk[0] is runtime.Callers, walk[1] is errstr.caller, walk[2] is the
 * constructor that called caller, walk[3] that constructor's caller, and so
 * on outward.
 */
module ErrStr {
  import opened Base
  import Fu
  import Decimal

  /** One resolved stack record: what runtime.Frame reports. */
  datatype Site = Site(funcName: string, file: string, line: int)

  /** The zero runtime.Frame, and the all-empty answer of location. */
  const Unknown := Site("", "", 0)

  /** The number of program counters an errorStr keeps. */
  const FrameSlots := 3

  /** The captured frame of an errorStr, resolved: at most FrameSlots records, innermost first. */
  type Frame = seq<Site>

  /** The two kinds of error value the package produces. */
  datatype Error =
    | Annotated(str: ErrorStr)      // *errorStr
    | Plain(id: nat, text: string)  // the value errors.New returns

  datatype ErrorStr = ErrorStr(id: nat, message: string, cause: Option<Error>, frame: Frame)

  /** The identity (address) of an error value. */
  function Ident(e: Error): nat {
    match e
    case Annotated(s) => s.id
    case Plain(id, _) => id
  }

  /**
   * Go's `err1 == err2` on two non-nil errors: the dynamic types agree
   * (a *errorStr never equals an errors.New value) and so do the pointers.
   */
  predicate Same(a: Error, b: Error) {
    a.Annotated? == b.Annotated? && Ident(a) == Ident(b)
  }

  /** The Error() method of either kind of error. */
  function Message(e: Error): (m: string)
    ensures e.Annotated? ==> m == e.str.message
    ensures e.Plain? ==> m == e.text
  {
    match e
    case Annotated(s) => s.message
    case Plain(_, text) => text
  }

  // ---------------------------------------------------------------- capture

  /** The range of Go's int on a 64-bit platform. */
  const MinInt64: int := -0x8000_0000_0000_0000
  const MaxInt64: int := 0x7fff_ffff_ffff_ffff
  type Int64 = x: int | MinInt64 <= x <= MaxInt64

  const TwoTo64: int := 0x1_0000_0000_0000_0000

  /** The two's-complement result of a Go int addition whose exact value is `x`. */
  function Wrap64(x: int): (r: Int64)
    ensures MinInt64 <= x <= MaxInt64 ==> r == x
    ensures (x - r) % TwoTo64 == 0
  {
    (x - MinInt64) % TwoTo64 + MinInt64
  }

  /**
   * caller(skip): runtime.Callers(skip+1, …) records at most FrameSlots
   * records of `walk`, after skipping skip+1 of them. The addition wraps
   * like Go's int, and a skip count below zero skips nothing.
   */
  function Caller(skip: Int64, walk: seq<Site>): (f: Frame)
    ensures var n := Wrap64(skip + 1);
      var start := if n < 0 then 0 else n;
      && |f| == (if start + FrameSlots <= |walk| then FrameSlots else if start <= |walk| then |walk| - start else 0)
      && forall i | 0 <= i < |f| :: f[i] == walk[start + i]
  {
    var n := Wrap64(skip + 1);
    var from := if n < 0 then 0 else if n > |walk| then |walk| else n;
    var rest := walk[from..];
    if |rest| <= FrameSlots then rest else rest[..FrameSlots]
  }

  /** At the top of the int range skip+1 wraps negative and nothing is skipped. */
  lemma CallerWrapsAtMaxInt(walk: seq<Site>)
    requires |walk| >= FrameSlots
    ensures Caller(MaxInt64, walk) == walk[..FrameSlots]
  {
    assert Wrap64(MaxInt64 + 1) == MinInt64;
  }

  // --------------------------------------------------------------- location

  /**
   * One call of runtime.Frames.Next over the resolved records: the next
   * record (the zero record when none is left), whether MORE records follow
   * it, and what remains.
   */
  function Next(fs: seq<Site>): (r: (Site, bool, seq<Site>))
    ensures |fs| == 0 ==> r == (Unknown, false, [])
    ensures |fs| > 0 ==> r.0 == fs[0] && r.2 == fs[1..] && (r.1 <==> |r.2| > 0)
  {
    if |fs| == 0 then (Unknown, false, []) else (fs[0], |fs| > 1, fs[1..])
  }

  /**
   * frame.location exactly as written: it gives up when the FIRST call of
   * Next reports that no more records follow, and again when the SECOND
   * call reports that. The second test discards a second record that was
   * resolved but happens to be the last one.
   */
  function LocationAsWritten(f: Frame): (s: Site)
    ensures |f| >= 3 ==> s == f[1]
    ensures |f| < 3 ==> s == Unknown
  {
    var (_, ok, rest) := Next(f);
    if !ok then Unknown
    else
      var (fr, ok2, _) := Next(rest);
      if !ok2 then Unknown else fr
  }

  /**
   * frame.location as intended: skip the record of the constructor itself
   * and report the next one; all empty when there is no second record.
   * Only the "more" flag of the first Next call is consulted.
   */
  function Location(f: Frame): (s: Site)
    ensures |f| >= 2 ==> s == f[1]
    ensures |f| < 2 ==> s == Unknown
  {
    var (_, more, rest) := Next(f);
    if !more then Unknown else Next(rest).0
  }

  /** The two readings differ on every frame of exactly two records whose second record is known. */
  lemma LocationDropsLastRecord(inner: Site, site: Site)
    requires site != Unknown
    ensures LocationAsWritten([inner, site]) == Unknown
    ensures Location([inner, site]) == site
    ensures LocationAsWritten([inner, site]) != Location([inner, site])
  {
  }

  /**
   * A concrete instance: main.main calls New(msg, 2), so the skip reaches
   * the second-to-last record of the stack. The last record,
   * runtime.goexit, is resolved and still lost. (The line numbers of the
   * runtime records are illustrative.)
   */
  lemma LocationAsWrittenCounterexample()
    ensures var walk := [Site("runtime.Callers", "runtime/extern.go", 331), Site("errstr.caller", "error.go", 18),
                         Site("errstr.New", "error.go", 99), Site("main.main", "main.go", 7),
                         Site("runtime.main", "runtime/proc.go", 283), Site("runtime.goexit", "runtime/asm_amd64.s", 1700)];
            var e := New("m", [2], walk, 1);
            && LocationAsWritten(e.frame) == Unknown
            && Location(e.frame) == walk[5]
  {
    var walk := [Site("runtime.Callers", "runtime/extern.go", 331), Site("errstr.caller", "error.go", 18),
                 Site("errstr.New", "error.go", 99), Site("main.main", "main.go", 7),
                 Site("runtime.main", "runtime/proc.go", 283), Site("runtime.goexit", "runtime/asm_amd64.s", 1700)];
    assert Fu.Fnz([2]) == 2;
    assert New("m", [2], walk, 1).frame == walk[4..];
  }

  // -------------------------------------------------------------- rendering

  const UnknownFunc := "<unknown func>"

  /** The function part of a rendered location: the name, or the placeholder when it is empty. */
  function FuncPart(s: Site): (p: string)
    ensures |p| > 0
    ensures s.funcName == "" ==> p == UnknownFunc
    ensures s.funcName != "" ==> p == s.funcName
  {
    if s.funcName == "" then UnknownFunc else s.funcName
  }

  /**
   * The text frame.String builds from a location: the function part,
   * followed (only when the file is known) by " file:line" and the newline
   * the format string carries.
   */
  function RenderSite(s: Site): (str: string)
    ensures |str| >= |FuncPart(s)| && str[..|FuncPart(s)|] == FuncPart(s)
    ensures s.file == "" ==> str == FuncPart(s)
    ensures s.file != "" ==> str[|str| - 1] == '\n'
    ensures s.file != "" ==>
      var d := |FuncPart(s)| + 1 + |s.file| + 1;
      d < |str| && str[|FuncPart(s)| ..  d] == " " + s.file + ":"
      && str[d .. |str| - 1] == Decimal.IntToString(s.line)
      && Decimal.ParseInt(str[d .. |str| - 1]) == Some(s.line)
  {
    var head := FuncPart(s);
    if s.file == "" then head
    else
      var num := Decimal.IntToString(s.line);
      LocatedParts(head, s.file, num);
      Decimal.IntRoundTrip(s.line);
      head + " " + s.file + ":" + num + "\n"
  }

  /** Where each field sits in the text "head file:num\n". */
  lemma LocatedParts(head: string, file: string, num: string)
    ensures var str := head + " " + file + ":" + num + "\n";
      var d := |head| + 1 + |file| + 1;
      && |str| == d + |num| + 1
      && str[..|head|] == head
      && str[|head| .. d] == " " + file + ":"
      && str[d .. |str| - 1] == num
      && str[|str| - 1] == '\n'
  {
    var str := head + " " + file + ":" + num + "\n";
    var d := |head| + 1 + |file| + 1;
    assert str == (head + (" " + file + ":")) + num + "\n";
  }

  /** frame.String, rendering the corrected location. */
  function FrameString(f: Frame): (str: string)
    ensures |f| < 2 ==> str == UnknownFunc
    ensures |f| >= 2 ==> str == RenderSite(f[1])
  {
    RenderSite(Location(f))
  }

  /** frame.String exactly as written: it renders LocationAsWritten. */
  function FrameStringAsWritten(f: Frame): (str: string)
    ensures |f| < 3 ==> str == UnknownFunc
    ensures |f| >= 3 ==> str == RenderSite(f[1])
  {
    RenderSite(LocationAsWritten(f))
  }

  /** errorStr.String, rendering the corrected location: the message, then the location in brackets. */
  function String(e: ErrorStr): (str: string)
    ensures |str| >= |e.message| + 3
    ensures str[..|e.message|] == Message(Annotated(e))
    ensures str[|e.message| .. |e.message| + 2] == " ["
    ensures str[|str| - 1] == ']'
    ensures str[|e.message| + 2 .. |str| - 1] == FrameString(e.frame)
  {
    e.message + " [" + FrameString(e.frame) + "]"
  }

  /** errorStr.String exactly as written: the same shape around FrameStringAsWritten. */
  function StringAsWritten(e: ErrorStr): (str: string)
    ensures |str| >= |e.message| + 3
    ensures str[..|e.message|] == Message(Annotated(e))
    ensures str[|e.message| .. |e.message| + 2] == " ["
    ensures str[|str| - 1] == ']'
    ensures str[|e.message| + 2 .. |str| - 1] == FrameStringAsWritten(e.frame)
  {
    e.message + " [" + FrameStringAsWritten(e.frame) + "]"
  }

  /**
   * The corrected and the as-written renderings agree on every frame except
   * one of exactly two records. On such a frame the code as written shows
   * only the placeholder.
   */
  lemma RenderingsAgree(e: ErrorStr)
    ensures |e.frame| != 2 ==> FrameString(e.frame) == FrameStringAsWritten(e.frame)
    ensures |e.frame| != 2 ==> String(e) == StringAsWritten(e)
    ensures |e.frame| == 2 ==> FrameStringAsWritten(e.frame) == UnknownFunc
    ensures |e.frame| == 2 ==> FrameString(e.frame) == RenderSite(e.frame[1])
  {
  }

  // ----------------------------------------------------------- constructors

  /**
   * New(msg, skip...): no cause; the site skip levels above New's caller,
   * where skip is the first non-zero argument. The site clauses need
   * skip <= MaxInt64 - 2: beyond that Go's additions wrap (see
   * OverflowSkipRecordsRuntime). The corrected reading needs two captured
   * records, the code as written three.
   */
  function New(msg: string, skip: seq<Int64>, walk: seq<Site>, id: nat): (e: ErrorStr)
    ensures Message(Annotated(e)) == msg && e.cause == None && e.id == id
    ensures var s := Fu.Fnz(skip);
      0 <= s <= MaxInt64 - 2 && s + 4 <= |walk| ==> Location(e.frame) == walk[s + 3]
    ensures var s := Fu.Fnz(skip);
      0 <= s <= MaxInt64 - 2 && s + 5 <= |walk| ==> LocationAsWritten(e.frame) == walk[s + 3]
  {
    var s := Fu.Fnz(skip);
    ErrorStr(id, msg, None, Caller(Wrap64(s + 1), walk))
  }

  /** Wrap(err, msg, skip...): as New, with `err` recorded as the cause. */
  function Wrap(err: Option<Error>, msg: string, skip: seq<Int64>, walk: seq<Site>, id: nat): (e: ErrorStr)
    ensures Message(Annotated(e)) == msg && e.cause == err && e.id == id
    ensures var s := Fu.Fnz(skip);
      0 <= s <= MaxInt64 - 2 && s + 4 <= |walk| ==> Location(e.frame) == walk[s + 3]
    ensures var s := Fu.Fnz(skip);
      0 <= s <= MaxInt64 - 2 && s + 5 <= |walk| ==> LocationAsWritten(e.frame) == walk[s + 3]
  {
    var s := Fu.Fnz(skip);
    ErrorStr(id, msg, err, Caller(Wrap64(s + 1), walk))
  }

  /** Format(skip, f, a...): the message is fmt.Sprintf(f, a...), here the parameter `sprintf`. */
  function Format<V>(skip: Int64, f: string, a: seq<V>, sprintf: (string, seq<V>) -> string,
                     walk: seq<Site>, id: nat): (e: ErrorStr)
    ensures Message(Annotated(e)) == sprintf(f, a) && e.cause == None && e.id == id
    ensures 0 <= skip <= MaxInt64 - 2 && skip + 4 <= |walk| ==> Location(e.frame) == walk[skip + 3]
    ensures 0 <= skip <= MaxInt64 - 2 && skip + 5 <= |walk| ==> LocationAsWritten(e.frame) == walk[skip + 3]
  {
    ErrorStr(id, sprintf(f, a), None, Caller(Wrap64(skip + 1), walk))
  }

  /** Wrapf(skip, err, f, a...): Format with `err` recorded as the cause. */
  function Wrapf<V>(skip: Int64, err: Option<Error>, f: string, a: seq<V>, sprintf: (string, seq<V>) -> string,
                    walk: seq<Site>, id: nat): (e: ErrorStr)
    ensures Message(Annotated(e)) == sprintf(f, a) && e.cause == err && e.id == id
    ensures 0 <= skip <= MaxInt64 - 2 && skip + 4 <= |walk| ==> Location(e.frame) == walk[skip + 3]
    ensures 0 <= skip <= MaxInt64 - 2 && skip + 5 <= |walk| ==> LocationAsWritten(e.frame) == walk[skip + 3]
  {
    ErrorStr(id, sprintf(f, a), err, Caller(Wrap64(skip + 1), walk))
  }

  /**
   * Errorf(f, a...) calls Format(1, …). Its `walk` is the stack seen from
   * inside that call: walk[2] is Format, walk[3] is Errorf, walk[4] is
   * Errorf's caller, which is the site reported.
   */
  function Errorf<V>(f: string, a: seq<V>, sprintf: (string, seq<V>) -> string,
                     walk: seq<Site>, id: nat): (e: ErrorStr)
    ensures Message(Annotated(e)) == sprintf(f, a) && e.cause == None && e.id == id
    ensures |walk| >= 5 ==> Location(e.frame) == walk[4]
    ensures |walk| >= 6 ==> LocationAsWritten(e.frame) == walk[4]
  {
    Format(1, f, a, sprintf, walk, id)
  }

  // ------------------------------------------------------------ cause chain

  /** errorStr.Unwrap: the wrapped cause, nil when there is none. */
  function Unwrap(e: ErrorStr): (r: Option<Error>)
    ensures r == e.cause
  {
    e.cause
  }

  /** errors.Unwrap on either kind: the errors.New value has no Unwrap method. */
  function UnwrapError(e: Error): (r: Option<Error>)
    ensures e.Plain? ==> r == None
    ensures e.Annotated? ==> r == e.str.cause
  {
    match e
    case Annotated(s) => Unwrap(s)
    case Plain(_, _) => None
  }

  /**
   * errors.Is(err, target) of Go's standard library, for the two kinds of
   * error modelled here: nil matches only nil; otherwise the walk of IsWalk.
   */
  function ErrorsIs(err: Option<Error>, target: Option<Error>): (r: bool)
    ensures err.None? || target.None? ==> (r <==> err.None? && target.None?)
    ensures err.Some? && target.Some? && Same(err.value, target.value) ==> r
    decreases err, 1
  {
    if err.None? || target.None? then err.None? && target.None?
    else IsWalk(err.value, target.value)
  }

  /**
   * The loop of errors.Is, one step per call: true on identity, true when
   * the error's own Is method says so, otherwise continue with its Unwrap,
   * and false when that is nil or there is no Unwrap method.
   */
  function IsWalk(err: Error, target: Error): (r: bool)
    ensures Same(err, target) ==> r
    ensures err.Plain? ==> (r <==> Same(err, target))
    decreases err, 0
  {
    if Same(err, target) then true
    else
      match err
      case Plain(_, _) => false
      case Annotated(s) =>
        Is(s, Some(target)) || (s.cause.Some? && IsWalk(s.cause.value, target))
  }

  /** errorStr.Is: errors.Is applied to the cause, not to the error itself. */
  function Is(e: ErrorStr, target: Option<Error>): (r: bool)
    ensures target.None? ==> (r <==> e.cause.None?)
    ensures e.cause.None? ==> (r <==> target.None?)
    decreases e
  {
    ErrorsIs(e.cause, target)
  }

  // ------------------------------------------------------ panic conversions

  /** A value recovered from a panic: an error, or any other value. */
  datatype Recovered<V> = RecoveredError(err: Error) | RecoveredValue(value: V)

  /** MessageOf: the error's message, else fmt.Sprint of the value (the parameter `sprint`). */
  function MessageOf<V>(p: Recovered<V>, sprint: V -> string): (m: string)
    ensures p.RecoveredError? ==> m == Message(p.err)
    ensures p.RecoveredValue? ==> m == sprint(p.value)
  {
    match p
    case RecoveredError(err) => Message(err)
    case RecoveredValue(v) => sprint(v)
  }

  /** ErrorOf: the error itself, else a new errors.New value holding fmt.Sprint of the value. */
  function ErrorOf<V>(p: Recovered<V>, sprint: V -> string, id: nat): (e: Error)
    ensures p.RecoveredError? ==> e == p.err
    ensures p.RecoveredValue? ==> e == Plain(id, sprint(p.value))
    ensures Message(e) == MessageOf(p, sprint)
  {
    match p
    case RecoveredError(err) => err
    case RecoveredValue(v) => Plain(id, sprint(v))
  }

  // ----------------------------------------------------------------- lemmas

  /**
   * New and Wrap without a skip argument behave as with skip 0, and leading
   * zero arguments are ignored: fnz picks the first non-zero one.
   */
  lemma OmittedSkipIsZero(err: Option<Error>, msg: string, s: Int64, walk: seq<Site>, id: nat)
    ensures New(msg, [], walk, id) == New(msg, [0], walk, id) == New(msg, [0, 0], walk, id)
    ensures Wrap(err, msg, [], walk, id) == Wrap(err, msg, [0], walk, id)
    ensures New(msg, [0, s], walk, id) == New(msg, [s], walk, id)
    ensures |walk| >= 4 ==> Location(New(msg, [], walk, id).frame) == walk[3]
    ensures |walk| >= 5 ==> LocationAsWritten(New(msg, [], walk, id).frame) == walk[3]
  {
    assert Fu.Fnz([0, s]) == Fu.Fnz([s]) by {
      assert [0, s][1..] == [s];
    }
    assert Fu.Fnz([0, 0]) == 0 by {
      assert [0, 0][1..] == [0];
    }
  }

  /**
   * When no second record resolves, the display string is still well
   * formed: the message, then the placeholder in brackets, with no file or
   * line. Both readings of location agree here.
   */
  lemma UnresolvedString(e: ErrorStr)
    requires |e.frame| < 2
    ensures String(e) == e.message + " [" + UnknownFunc + "]"
    ensures StringAsWritten(e) == String(e)
  {
  }

  /**
   * A skip count deeper than the stack leaves nothing to resolve. The bound
   * s <= MaxInt64 - 2 keeps Go's skip arithmetic from wrapping; the two
   * largest counts are OverflowSkipRecordsRuntime's case.
   */
  lemma DeepSkipRendersPlaceholder(msg: string, s: Int64, walk: seq<Site>, id: nat)
    requires s != 0 && s + 3 >= |walk| && s <= MaxInt64 - 2
    ensures String(New(msg, [s], walk, id)) == msg + " [" + UnknownFunc + "]"
    ensures StringAsWritten(New(msg, [s], walk, id)) == msg + " [" + UnknownFunc + "]"
  {
    assert Fu.Fnz([s]) == s;
    UnresolvedString(New(msg, [s], walk, id));
  }

  /**
   * With skip MaxInt64 - 1 or MaxInt64 the additions s+1 and skip+1 wrap
   * negative, so runtime.Callers skips nothing: the frame starts at
   * runtime.Callers, and the site reported is errstr.caller itself.
   */
  lemma OverflowSkipRecordsRuntime(msg: string, s: Int64, walk: seq<Site>, id: nat)
    requires s >= MaxInt64 - 1 && |walk| >= FrameSlots
    ensures New(msg, [s], walk, id).frame == walk[..FrameSlots]
    ensures LocationAsWritten(New(msg, [s], walk, id).frame) == walk[1]
  {
    assert Fu.Fnz([s]) == s;
    if s == MaxInt64 {
      assert Wrap64(s + 1) == MinInt64;
    }
    assert Wrap64(Wrap64(s + 1) + 1) < 0;
  }
}

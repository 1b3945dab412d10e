# errstr — annotated errors and selection helpers, in Dafny

This project models the Go package `errstr`. The package has two parts.

The first part is an annotated error value (error.go). It holds a message, an optional wrapped cause, and the call-site records captured when the error is built. The model covers:

- the five constructors `New`, `Wrap`, `Format`, `Wrapf` and `Errorf`;
- the observations `Error`, `String`, `Location` and `Unwrap`;
- the chain search `Is`;
- the panic bridges `MessageOf` and `ErrorOf`.

The second part is a set of variadic selection helpers (fu.go): `Fnf`, `Fne`, `Fnz`, `Opti`, `Ifs` and `Option`.

Modules:

- `Base`: `Option` (Go's nil) and `Outcome` (a return, or a run-time panic).
- `Decimal`: how `%d` renders the line number. It comes with a reader, and the two are proved to round-trip.
- `Fu`: fu.go.
- `ErrStr`: error.go. It has the data model, capture, location, rendering, constructors, `Is`, and the panic bridges.
- `Chain`: the cause chain as a sequence. `Is` is proved equal to membership in that chain.

Modelling decisions:

- Pointer identity is an explicit `id` together with the error's kind. Two errors are the same Go value when both agree, so a `*errorStr` never equals an `errors.New` value. Every allocation gets a fresh id from its caller.
- The call stack is a sequence of already-resolved `(function, file, line)` records.
- Each constructor receives `walk`, the stack as `runtime.Callers` walks it. So `caller(skip)` keeps at most three records after skipping `skip + 1` of them.
- Skip counts are Go ints (`ErrStr.Int64`). The additions `s + 1` and `skip + 1` wrap around like Go's 64-bit int.
- `location` has two readings. `LocationAsWritten` is the code's own, and `Location` is the corrected one (see Findings). Rendering has a twin for each reading. Every constructor states the reported site under both readings.
- Go's `errors.Is` is modelled by `ErrStr.ErrorsIs` and `ErrStr.IsWalk`. They follow the standard library's loop: an identity test, then the error's own `Is` method, then `Unwrap`.
- `fmt.Sprintf` and `fmt.Sprint` are function-typed parameters.
- Frame rendering keeps the trailing newline that the code's format string writes after `file:line`. A cleaner rendering would drop it; the model follows the code.
- `errorStr.Is(nil)` is true exactly when the error has no cause, because `errors.Is(nil, nil)` is true.

## Model

| member | source | states |
|---|---|---|
| Fu.Fnf | fu.go:8-15 | true exactly when some argument is true |
| Fu.Fne | fu.go:20-27 | "" exactly when every argument is empty; otherwise the argument at the least index whose string is non-empty |
| Fu.Fnz | fu.go:32-37 | 0 exactly when every argument is 0; otherwise the argument at the least non-zero index (also the package-private fnz of error.go:129-134) |
| Fu.Opti | fu.go:42-47 | the first optional argument when one is given, the default otherwise |
| Fu.OptiIgnoresRest | fu.go:42-47 | arguments after the first never influence the result |
| Fu.Ifs | fu.go:52-57 | the true-branch string when the condition holds, the false-branch string otherwise |
| Fu.IfsSwap | fu.go:52-57 | negating the condition is the same as swapping the branches |
| Fu.Option | fu.go:62-75 | for a nil reference value: returns it on an empty list and panics otherwise. Otherwise the scan stops at the first element that is nil or has the reference's type. A nil element panics and a match is returned. When every element passes, the reference is returned |
| Fu.SomeStop | fu.go:62-75 | whenever some element does not pass, there is a first index where the scan stops, so the three cases of Option are exhaustive |
| Decimal.NatToString | error.go:59 | the %d digits: non-empty, all decimal digits, no leading zero |
| Decimal.IntToString | error.go:59 | the %d text of a line number: a minus sign exactly for negatives; never contains ':' or a newline |
| Decimal.NatRoundTrip | error.go:59 | reading the digits back gives the original number |
| Decimal.IntRoundTrip | error.go:59 | the rendered line number parses back to the same int |
| ErrStr.Message | error.go:34-36 | Error() of a `*errorStr` is its message; Error() of an `errors.New` value is its text |
| ErrStr.Caller | error.go:17-20 | the captured frame holds at most three records: the walk after skip+1 records. The addition wraps like a Go int, and a negative count skips nothing |
| ErrStr.CallerWrapsAtMaxInt | error.go:17-20 | caller(MaxInt64) wraps skip+1 negative and records the walk from its first record |
| ErrStr.Next | error.go:23-30 | one call of runtime.Frames.Next: the next record (the zero record when none is left), and a flag that is true exactly when further records follow |
| ErrStr.LocationAsWritten | error.go:22-32 | as written: the second record when at least three resolve, the all-empty triple otherwise |
| ErrStr.Location | error.go:22-32 | corrected: the second record whenever two resolve, the all-empty triple when fewer do |
| ErrStr.LocationDropsLastRecord | error.go:27-30 | on any two-record frame with a known second record, the code as written reports nothing where the corrected version reports the caller |
| ErrStr.LocationAsWrittenCounterexample | error.go:27-30 | a concrete two-record frame whose resolved caller is lost by the code as written |
| ErrStr.FuncPart | error.go:53-57 | the placeholder "<unknown func>" exactly when the function name is empty, the name otherwise |
| ErrStr.RenderSite | error.go:52-62 | the result starts with the function part. An unknown file adds nothing after it. A known file adds " file:", then the line's exact %d text (which reads back as the same int), then a final newline |
| ErrStr.FrameString | error.go:52-62 | corrected reading: the placeholder alone when fewer than two records resolve, otherwise the rendering of the second record |
| ErrStr.FrameStringAsWritten | error.go:52-62 | as written: the placeholder alone when fewer than three records resolve, otherwise the rendering of the second record |
| ErrStr.String | error.go:38-40 | corrected reading: starts with Error(), then " [", the frame rendering, and a final "]" |
| ErrStr.StringAsWritten | error.go:38-40 | as written: the same shape around the as-written frame rendering |
| ErrStr.RenderingsAgree | error.go:38-62 | the two readings render identically unless exactly two records resolve. In that case the code as written shows only the placeholder |
| ErrStr.UnresolvedString | error.go:38-62 | with no resolvable caller the display is message + " [<unknown func>]" under both readings, with no file:line fragment |
| ErrStr.New | error.go:97-100 | Error() is the message and there is no cause. The site reported is skip levels above New's caller, where skip is the first non-zero argument. It needs two captured records under the corrected reading and three as written, for skip up to MaxInt64 - 2 |
| ErrStr.Wrap | error.go:89-92 | same as New, and the cause is the wrapped error |
| ErrStr.Format | error.go:75-77 | Error() is the formatted text and there is no cause. The site reported is skip levels above the direct caller, under both readings, with New's bounds |
| ErrStr.Wrapf | error.go:82-84 | same as Format, and the cause is the wrapped error |
| ErrStr.Errorf | error.go:102-104 | Error() is the formatted text and there is no cause. The site reported is Errorf's own caller: from five walk records with the corrected reading, six as written |
| ErrStr.OmittedSkipIsZero | error.go:129-134 | no skip argument means skip 0 and leading zero arguments are ignored. New then reports its direct caller: from four walk records with the corrected reading, five as written |
| ErrStr.DeepSkipRendersPlaceholder | error.go:97-100 | a skip deeper than the stack, and small enough not to wrap, gives the display message + " [<unknown func>]" under both readings |
| ErrStr.OverflowSkipRecordsRuntime | error.go:97-100 | with skip MaxInt64 - 1 or MaxInt64 the int additions wrap and nothing is skipped: the frame starts at runtime.Callers and the site reported is errstr.caller |
| ErrStr.MessageOf | error.go:109-114 | an error's Error() text, or the printed form of any other value |
| ErrStr.ErrorOf | error.go:119-124 | an error is returned unchanged. Any other value becomes a fresh plain error whose Error() is the printed form, so Error() of the result is always MessageOf |
| ErrStr.Unwrap | error.go:64-66 | the wrapped cause, nil when there is none |
| ErrStr.UnwrapError | error.go:64-66 | errors.Unwrap on either kind: the cause of a `*errorStr`, nil for an `errors.New` value, which has no Unwrap method |
| ErrStr.Is | error.go:68-70 | errors.Is on the cause: a nil target matches exactly when there is no cause, and with no cause only nil matches (full characterisation in Chain.IsSpec) |
| ErrStr.ErrorsIs | error.go:68-70 | Go's errors.Is as called at line 69: when either side is nil, true exactly when both are; true whenever the two are the same value |
| ErrStr.IsWalk | error.go:68-70 | one step of errors.Is's loop: true on the same value; on an `errors.New` value, true only on the same value |
| Chain.Chain | error.go:64-66 | the sequence reached by repeated Unwrap: empty for nil, and it starts with the error itself |
| Chain.ErrorsIsReaches | error.go:68-70 | errors.Is with a non-nil target is true exactly when the target is the same value as some error on the chain |
| Chain.IsSpec | error.go:68-70 | Is(nil) holds exactly when there is no cause. Any other target matches exactly when it lies on the cause's chain |
| Chain.IsFalseOffChain | error.go:68-70 | Is is false for a target whose identity appears nowhere on the cause chain |
| Chain.WrapIsCause | error.go:68-92 | Wrap(c, m).Is(c) holds |
| Chain.IsThroughTwoWraps | error.go:68-92 | if e2 wraps e1 and e3 wraps e2, then e3.Is(e1) and e3.Is(e2) |
| Chain.ChainSuffix | error.go:64-66 | after an annotated error on a chain comes exactly that error's own cause chain |
| Chain.IsTransitive | error.go:68-70 | when an error on a's cause chain matches a target, a matches it too |
| Chain.UnwrapReturnsCause | error.go:64-100 | Unwrap returns the error given to Wrap and Wrapf, and nil for New, Format and Errorf |
| Chain.FreshErrorMatchesOnlyNil | error.go:68-100 | an error from New matches no non-nil target, and it matches nil |

## Findings

| source | as written | input that shows it | evidently intended | confidence | as-written member | corrected member |
|---|---|---|---|---|---|---|
| error.go:27-30 | The second result of `runtime.Frames.Next` is read as "this frame is valid". In fact it means "more frames follow". So the record is thrown away whenever it is the last one | main.main calls `New(msg, 2)`, so the captured frame is `[runtime.main, runtime.goexit]`, two resolved records. Location() gives ("", "", 0) instead of runtime.goexit, and String() shows only the placeholder | return the second record whenever it exists: the first record is skipped only to reach the caller's record | medium; not executed | ErrStr.LocationAsWrittenCounterexample | ErrStr.Location |

`FrameString` and `String` use the corrected `Location`. `FrameStringAsWritten` and `StringAsWritten` render as the code does. `ErrStr.RenderingsAgree` shows the two pairs differ only on frames of exactly two records.

## Left out

- Stack capture and symbolisation (`runtime.Callers`, `runtime.CallersFrames`) are replaced by the `walk` parameter of already-resolved records. Each program counter gives one record, so the extra records that inlined calls expand into are not modelled.
- `fmt.Sprintf` in `Format`/`Wrapf` and `fmt.Sprint` in `MessageOf`/`ErrorOf` are opaque function parameters. Only the `%d` of the line number is modelled.
- The method `errorStr.Location` (error.go:48-50) is `LocationAsWritten` applied to the error's frame, and has no member of its own. `Location` is the corrected reading.
- String: renders the corrected location. On a frame of exactly two records it shows the second record, where the code as written shows the placeholder; `StringAsWritten` is the code's behaviour.
- FrameString: the same, with `FrameStringAsWritten` as the code's behaviour.
- DeepSkipRendersPlaceholder: covers skip counts up to MaxInt64 - 2 only. The two larger counts wrap in Go's int arithmetic and report errstr.caller instead; `OverflowSkipRecordsRuntime` states that case.
- Freshness of ids is not enforced: callers supply them. The `Is` results are stated through `Same`, the modelled Go equality, so they do not depend on freshness.
- `errors.Is` is modelled only for the two kinds of error here. Errors of other packages, with their own `Is` or multi-error `Unwrap` methods, are not modelled. Pointer identity is an explicit id.
- Fu.Option: reflection is replaced by (type tag, payload) values. The panic of `Len` on a non-sequence argument is not modelled, because the argument is always a sequence here. A panic is modelled as the `Panicked` outcome, without a message.
- Type tags (`Fu.Tag`) are plain names. Interface slots hold concrete values only, which matches reflect's `Elem`.

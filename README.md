# Curried function values of the Frege lazy runtime

This project models the currying engine of the Frege runtime's function
values (`frege/rt/Fun26.java` and, generically, its siblings of arities 1 to
26). It proves what that engine promises in Dafny.

A function value of arity `n` is defined by one abstract body method `r`. That
method takes the `n` lazy arguments in reverse declaration order. Everything
else is derived from it:

- single-argument application `a(x)` returns a new function value of arity
  `n - 1`. Its body calls the original body with `x` appended last.
- saturated application `a(x1, ..., xn)` returns a deferred value (an
  `Unknown`). Evaluating that value calls `r(xn, ..., x1)`.
- the `Value`/`Lazy` interface methods are constants or identities: `_c` is 0,
  `_u` is false, `_e` and `_v` return the value itself. `coerce` returns the
  value itself at other type arguments.

Model (files `seqs.dfy`, `functions.dfy`):

- `Functions.Fun` is one generic representation for the whole family.
  `Root(n, id)` is one root instance of arity `n` (1 to 26); `id` identifies
  its body: its subclass's implementation of `r` together with whatever the
  instance holds. `Bound(fn, x)` is the anonymous function value that
  `fn.a(x)` allocates. It holds `fn` and `x` and nothing else. The arity-25 class
  that `Fun26.a` returns is therefore the same pattern one arity lower.
- A call of the abstract `r` is the value `Call(id, args)`. So "the same call to
  the original body, with the same arguments in the same positions" is plain
  equality of `Call` values.
- `Deferred(fn, args)` is the `Unknown` returned by saturated application, and
  `Force` is its overridden `_v`.
- Argument handles have an opaque type parameter `H`. The model has no way to
  force or inspect a handle. `ApplicationIgnoresHandles` states this as a
  renaming law: replacing every handle before application gives the same call
  with the handles replaced.

Saturated application does not call `r`. It returns an `Unknown` whose `_v`
(`Fun26.java:45`) calls it.

## Model

| member | source | states |
|---|---|---|
| `Functions.Valid` | frege/rt/Fun26.java:6-12 | a function value that the runtime can build has an arity between 1 and 26 |
| `Functions.Captured` | frege/rt/Fun26.java:23-29 | the arguments held by a chain of closures plus the arguments still missing are exactly the root function's arity |
| `Functions.Run` | frege/rt/Fun26.java:23-29 | the body of any function value, given its missing arguments in reverse order, is a call of the root's abstract `r` (line 88). That call gets these arguments followed by the closures' arguments, most recent first, and has exactly the root's arity |
| `Functions.Apply` | frege/rt/Fun26.java:23-29 | `a(x)` gives a valid function value of arity one less, with the same root body, holding `x` in front of the arguments bound earlier |
| `Functions.ApplyForwards` | frege/rt/Fun26.java:23-27 | the body of `f.a(x)` calls the body of `f` with the received arguments unchanged and in received order, followed by `x` in the last position |
| `Functions.ApplyAll` | frege/rt/Fun26.java:43-47 | saturated application yields a deferred value that holds exactly the arguments the function takes. Evaluating it calls the function's body with the arguments reversed |
| `Functions.Force` | frege/rt/Fun26.java:44-46 | evaluating the deferred value is the root body called with the reversed arguments, followed by the arguments bound earlier |
| `Functions.SaturatedCall` | frege/rt/Fun26.java:43-46 | for a root function, evaluation of `a(x1..xn)` calls `r(xn, ..., x1)`: argument `xi` sits in position `n - i` |
| `Functions.ApplyEach` | frege/rt/Fun26.java:16-21 | supplying `k` arguments one at a time gives a valid function value of arity `n - k` with the same root body, holding those arguments in reverse |
| `Functions.ApplyEachAppend` | frege/rt/Fun26.java:23-29 | supplying `xs` and then `ys` one at a time builds the very same chain of closures as supplying `xs + ys` one at a time |
| `Functions.CurryingEquivalence` | frege/rt/Fun26.java:23-47 | for every `k` below the arity, supplying the first `k` arguments one at a time and the rest at once ends in the identical call of the root body as supplying all at once |
| `Functions.OneAtATime` | frege/rt/Fun26.java:13-29 | the fully curried chain on a root of arity `n` (`n - 1` single applications, then the arity-1 value's own application) calls the root body with all arguments reversed |
| `Functions.ApplicationIgnoresHandles` | frege/rt/Fun26.java:23-46 | single and saturated application only store and forward argument handles: renaming handles commutes with application, with the body call and with evaluation |
| `Functions.Arity` | frege/rt/Fun26.java:12-23 | the `N` of a value's `FunN` class: never more than its root's arity, and strictly less for a closure made by `a(x)` (a `Fun26` gives a `Fun25`) |
| `Functions.Tag` | frege/rt/Fun26.java:52 | `_c`: 0 for every function value; `TagIsZero` proves it stays 0 under evaluation, coercion and application |
| `Functions.IsUnevaluated` | frege/rt/Fun26.java:67 | `_u`: false for every function value; `NeverUnevaluated` proves it stays false after evaluation |
| `Functions.Eval` | frege/rt/Fun26.java:57 | `_e` returns the function value itself; `EvalIsIdentity` proves it idempotent and keeping arity, tag and body |
| `Functions.Val` | frege/rt/Fun26.java:62 | `_v` returns the function value itself; `EvalIsIdentity` proves it keeps the body |
| `Functions.Coerce` | frege/rt/Fun26.java:95 | `coerce` returns the same value (only the static type changes); `CoerceIsIdentity` proves validity, arity, tag and body unchanged |
| `Functions.TagIsZero` | frege/rt/Fun26.java:48-52 | the variant tag of a function value is 0, and evaluation, coercion and application keep it so |
| `Functions.NeverUnevaluated` | frege/rt/Fun26.java:63-67 | a function value is never unevaluated, before or after evaluation |
| `Functions.EvalIsIdentity` | frege/rt/Fun26.java:53-62 | `_e` and `_v` return the value itself. They are idempotent and keep tag, arity and body |
| `Functions.CoerceIsIdentity` | frege/rt/Fun26.java:89-95 | `coerce` returns the same value: same validity, arity, tag and body |

## Left out

- `frege/compiler/JavaUtils.java` is not part of this model. It is reflective
  class loading and annotation lookup (`getFrege`, `getOperators`) and running
  `javac` as a subprocess, all of it I/O.
- The Java type parameters of the function classes and the unchecked cast in
  `coerce`. The host type system is not modelled: all handles share one type
  `H`, and `Coerce` is the identity on the representation.
- How `Unknown` itself evaluates, memoizes or detects self-reference. Its
  class is not part of this model. `Force` models only the overridden `_v` at
  `Fun26.java:45`, with no caching.
- `Fun1` to `Fun25` are not modelled one by one; the generic representation
  assumes they follow `Fun26`'s pattern. In particular, the single-argument application of
  an arity-1 value is taken to be its saturated form, so `Apply` requires
  arity 2 or more.
- `Functions.ApplyAll`: that construction calls nothing is not a contract
  clause. It holds because the deferred value is plain data and only `Force`
  produces a `Call`.
- Allocation counts: the saturated form allocates one deferred value; on a
  root of arity `n` the curried chain allocates `n - 1` closures, and the final
  application of the arity-1 value allocates a deferred value. The model does
  not count allocations.
- The result of a body call (the `Lazy` that `r` returns) is not modelled
  beyond the call itself. Two forms that make the same call yield the same result.
- The memoizing thunk of the runtime and the `Value` and `Lazy` interfaces
  themselves are not part of this model. Only their implementation by function
  values is modelled.

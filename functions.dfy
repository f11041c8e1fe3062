/**
 * Function values of the lazy runtime and their application forms.
 *
 * The runtime has one class per arity (Fun1 .. Fun26); each is defined by a
 * single abstract body method `r` that receives all lazy arguments in REVERSE
 * declaration order. This module models the whole family with one generic
 * representation: a function value is either a root value (an instance of a
 * subclass that implements `r`) or the closure that single-argument
 * application allocates, which holds the function it was applied to and the
 * one argument it was given. Argument handles have the opaque type `H`: the
 * model can neither force nor inspect them, only store and forward them.
 */
module Functions {
  import opened Seqs

  /** Function value classes exist for the arities 1 through 26. */
  const MaxArity: nat := 26

  /**
   * Identifies the body of one root instance: its implementation of `r`
   * together with whatever the instance holds (two instances of one subclass
   * that capture different free variables have different bodies).
   */
  type BodyId = nat

  /**
   * One invocation of a root function's abstract `r`: which implementation is
   * called, and the argument handles it receives, last-declared argument first.
   */
  datatype Call<H> = Call(body: BodyId, args: seq<H>)

  /**
   * A function value.
   * `Root(n, id)`: a root instance of the arity-`n` class, whose body
   *   (its `r` with whatever the instance holds) is `id`.
   * `Bound(fn, arg)`: the anonymous function value of one arity less that
   *   `fn.a(arg)` returns; it remembers `fn` and `arg` and nothing else.
   */
  datatype Fun<H> = Root(arity: nat, id: BodyId) | Bound(fn: Fun<H>, arg: H)

  /**
   * The deferred value (an `Unknown`) that saturated application returns: it
   * remembers the function and the arguments, in declaration order.
   */
  datatype Deferred<H> = Deferred(fn: Fun<H>, args: seq<H>)

  /**
   * How many arguments `f` still takes: the `N` of its `FunN` class. A root
   * takes all of its arguments, a closure fewer than its root.
   */
  function Arity<H>(f: Fun<H>): (n: int)
    ensures n <= RootArity(f)
    ensures f.Bound? ==> n < RootArity(f)
  {
    match f
    case Root(n, _) => n
    case Bound(g, _) => Arity(g) - 1
  }

  /**
   * A function value that the runtime can build: a root has an arity of the
   * family, and only a function of arity two or more has a single-argument
   * application that returns a function value.
   */
  predicate Valid<H>(f: Fun<H>)
    ensures Valid(f) ==> 1 <= Arity(f) <= MaxArity
  {
    match f
    case Root(n, _) => 1 <= n <= MaxArity
    case Bound(g, _) => Valid(g) && Arity(g) >= 2
  }

  /** The implementation of `r` that every closure of `f` ends up calling. */
  function RootId<H>(f: Fun<H>): (id: BodyId)
  {
    match f
    case Root(_, id) => id
    case Bound(g, _) => RootId(g)
  }

  /** The arity of the root function underneath the closures of `f`. */
  function RootArity<H>(f: Fun<H>): (n: nat)
  {
    match f
    case Root(n, _) => n
    case Bound(g, _) => RootArity(g)
  }

  /**
   * The arguments the closures of `f` hold, the most recently supplied first.
   * Together with the `Arity(f)` arguments still missing they make up all the
   * arguments of the root function.
   */
  function Captured<H>(f: Fun<H>): (c: seq<H>)
    ensures Valid(f) ==> Arity(f) + |c| == RootArity(f)
  {
    match f
    case Root(_, _) => []
    case Bound(g, x) => [x] + Captured(g)
  }

  /**
   * The body `r` of `f`, given its `Arity(f)` arguments in reverse
   * declaration order. For a root it is the abstract method itself; for a
   * closure it calls the body of the function it was made from, with the
   * closure's own argument appended last.
   */
  function Run<H>(f: Fun<H>, rev: seq<H>): (c: Call<H>)
    requires Valid(f) && |rev| == Arity(f)
    ensures c == Call(RootId(f), rev + Captured(f))
    ensures |c.args| == RootArity(f)
  {
    match f
    case Root(_, id) => Call(id, rev)
    case Bound(g, x) =>
      assert (rev + [x]) + Captured(g) == rev + ([x] + Captured(g));
      Run(g, rev + [x])
  }

  /**
   * Single-argument application `f.a(x)`: a new function value of one arity
   * less whose body forwards to the body of `f`, with `x` in the last position.
   */
  function Apply<H>(f: Fun<H>, x: H): (g: Fun<H>)
    requires Valid(f) && Arity(f) >= 2
    ensures Valid(g) && Arity(g) == Arity(f) - 1
    ensures RootId(g) == RootId(f) && RootArity(g) == RootArity(f)
    ensures Captured(g) == [x] + Captured(f)
  {
    Bound(f, x)
  }

  /**
   * Saturated application `f.a(x1, ..., xn)`: a deferred value that holds
   * `f` and the arguments; the body of `f` is called only when the deferred
   * value is evaluated (`Force`), and then with the arguments reversed.
   */
  function ApplyAll<H>(f: Fun<H>, xs: seq<H>): (d: Deferred<H>)
    requires Valid(f) && |xs| == Arity(f)
    ensures Ready(d)
    ensures Force(d) == Run(f, Reverse(xs))
  {
    Deferred(f, xs)
  }

  /** A deferred value that holds exactly the arguments its function takes. */
  predicate Ready<H>(d: Deferred<H>)
  {
    Valid(d.fn) && |d.args| == Arity(d.fn)
  }

  /**
   * Evaluating the deferred value: the body of its function, called with the
   * arguments reversed.
   */
  function Force<H>(d: Deferred<H>): (c: Call<H>)
    requires Ready(d)
    ensures c == Call(RootId(d.fn), Reverse(d.args) + Captured(d.fn))
  {
    Run(d.fn, Reverse(d.args))
  }

  /** `f.a(x1).a(x2)...a(xk)`: the arguments supplied one at a time, in order. */
  function ApplyEach<H>(f: Fun<H>, xs: seq<H>): (g: Fun<H>)
    requires Valid(f) && |xs| < Arity(f)
    ensures Valid(g) && Arity(g) == Arity(f) - |xs|
    ensures RootId(g) == RootId(f) && RootArity(g) == RootArity(f)
    ensures Captured(g) == Reverse(xs) + Captured(f)
    decreases |xs|
  {
    if xs == [] then f
    else
      var g := ApplyEach(Apply(f, xs[0]), xs[1..]);
      assert Reverse(xs) == Reverse(xs[1..]) + [xs[0]];
      assert Reverse(xs[1..]) + ([xs[0]] + Captured(f)) == Reverse(xs) + Captured(f);
      g
  }

  /** The variant tag `_c` of a function value. */
  function Tag<H>(f: Fun<H>): (t: int)
    ensures t == 0
  {
    0
  }

  /** `_u`: whether the value still has to be evaluated. */
  predicate IsUnevaluated<H>(f: Fun<H>)
    ensures !IsUnevaluated(f)
  {
    false
  }

  /** `_e`: evaluation of a function value. */
  function Eval<H>(f: Fun<H>): (e: Fun<H>)
    ensures e == f
  {
    f
  }

  /** `_v`: the value of a function value. */
  function Val<H>(f: Fun<H>): (v: Fun<H>)
    ensures v == f
  {
    f
  }

  /**
   * `coerce`: the same function value seen at other type arguments. The
   * model has a single handle type, so only the representation remains.
   */
  function Coerce<H>(f: Fun<H>): (c: Fun<H>)
    ensures c == f
  {
    f
  }

  /** The call `c` with every argument handle replaced by its image under `g`. */
  function RenameCall<H, K>(c: Call<H>, g: H -> K): (r: Call<K>)
  {
    Call(c.body, Map(g, c.args))
  }

  /** `f` with every argument its closures hold replaced by its image under `g`. */
  function Rename<H, K>(f: Fun<H>, g: H -> K): (r: Fun<K>)
    ensures Arity(r) == Arity(f) && RootArity(r) == RootArity(f) && RootId(r) == RootId(f)
    ensures Valid(r) <==> Valid(f)
    ensures Captured(r) == Map(g, Captured(f))
  {
    match f
    case Root(n, id) => Root(n, id)
    case Bound(h, x) => Bound(Rename(h, g), g(x))
  }

  // ---------------------------------------------------------------------
  // Properties of the application forms
  // ---------------------------------------------------------------------

  /**
   * The closure made by `f.a(x)` has arity one less, and its body calls the
   * body of `f` with the arguments it received, unchanged and in their
   * received order, followed by `x` in the last position.
   */
  lemma ApplyForwards<H>(f: Fun<H>, x: H, rev: seq<H>)
    requires Valid(f) && Arity(f) >= 2 && |rev| == Arity(f) - 1
    ensures Arity(Apply(f, x)) == Arity(f) - 1
    ensures Run(Apply(f, x), rev) == Run(f, rev + [x])
    ensures Run(Apply(f, x), rev).args[..|rev|] == rev
    ensures Run(Apply(f, x), rev).args[|rev|] == x
  {
  }

  /**
   * Evaluating the deferred value of `f.a(x1, ..., xn)` calls the body of `f`
   * with `xn, ..., x1`; for a root function, argument `xi` is in position
   * `n - i` of that call.
   */
  lemma SaturatedCall<H>(f: Fun<H>, xs: seq<H>)
    requires Valid(f) && |xs| == Arity(f)
    ensures Force(ApplyAll(f, xs)) == Run(f, Reverse(xs))
    ensures f.Root? ==> Force(ApplyAll(f, xs)) == Call(f.id, Reverse(xs))
    ensures f.Root? ==> forall i :: 0 <= i < |xs| ==>
      Force(ApplyAll(f, xs)).args[i] == xs[|xs| - 1 - i]
  {
  }

  /**
   * Currying equivalence: supplying the first `k` arguments one at a time
   * and the rest at once ends in the very same call of the root body, with
   * the same handles in the same positions, as supplying all at once.
   */
  lemma CurryingEquivalence<H>(f: Fun<H>, xs: seq<H>, k: nat)
    requires Valid(f) && |xs| == Arity(f) && k < |xs|
    ensures Arity(ApplyEach(f, xs[..k])) == |xs| - k
    ensures Force(ApplyAll(ApplyEach(f, xs[..k]), xs[k..])) == Force(ApplyAll(f, xs))
  {
  }

  /**
   * Single applications compose: supplying `xs` and then `ys` one at a time
   * builds the very same chain of closures as supplying `xs + ys` one at a time.
   */
  lemma {:induction false} ApplyEachAppend<H>(f: Fun<H>, xs: seq<H>, ys: seq<H>)
    requires Valid(f) && |xs| + |ys| < Arity(f)
    ensures ApplyEach(f, xs + ys) == ApplyEach(ApplyEach(f, xs), ys)
    decreases |xs|
  {
    if xs != [] {
      assert (xs + ys)[0] == xs[0] && (xs + ys)[1..] == xs[1..] + ys;
      ApplyEachAppend(Apply(f, xs[0]), xs[1..], ys);
    } else {
      assert xs + ys == ys;
    }
  }

  /**
   * The fully curried chain on a root function of arity `n`: the first
   * `n - 1` arguments one at a time, the last through the arity-1 function
   * left over, ends in the root body called with all arguments reversed.
   */
  lemma OneAtATime<H>(n: nat, id: BodyId, xs: seq<H>)
    requires 1 <= n <= MaxArity && |xs| == n
    ensures Arity(ApplyEach(Root(n, id), xs[..n - 1])) == 1
    ensures Force(ApplyAll(ApplyEach(Root(n, id), xs[..n - 1]), [xs[n - 1]])) == Call(id, Reverse(xs))
  {
  }

  /**
   * Application never looks at an argument: renaming every handle before
   * applying gives the renamed result, for single-argument application, for
   * the body, and for saturated application followed by evaluation.
   */
  lemma ApplicationIgnoresHandles<H, K>(f: Fun<H>, g: H -> K, x: H, xs: seq<H>)
    requires Valid(f) && |xs| == Arity(f)
    ensures Arity(f) >= 2 ==> Rename(Apply(f, x), g) == Apply(Rename(f, g), g(x))
    ensures Run(Rename(f, g), Map(g, Reverse(xs))) == RenameCall(Run(f, Reverse(xs)), g)
    ensures Force(ApplyAll(Rename(f, g), Map(g, xs))) == RenameCall(Force(ApplyAll(f, xs)), g)
  {
    MapAppend(g, Reverse(xs), Captured(f));
    MapReverse(g, xs);
  }

  // ---------------------------------------------------------------------
  // The Value and Lazy interface of a function value
  // ---------------------------------------------------------------------

  /**
   * The variant tag of a function value is 0, and stays 0 under evaluation,
   * coercion and application.
   */
  lemma TagIsZero<H>(f: Fun<H>, x: H)
    ensures Tag(f) == 0
    ensures Tag(Eval(f)) == Tag(f) && Tag(Val(f)) == Tag(f) && Tag(Coerce(f)) == Tag(f)
    ensures Valid(f) && Arity(f) >= 2 ==> Tag(Apply(f, x)) == 0
  {
  }

  /** A function value is never unevaluated, before or after evaluation. */
  lemma NeverUnevaluated<H>(f: Fun<H>)
    ensures !IsUnevaluated(f) && !IsUnevaluated(Eval(f)) && !IsUnevaluated(Val(f))
  {
  }

  /**
   * Evaluation returns the value itself; it is idempotent and keeps the
   * tag, the arity and the body.
   */
  lemma EvalIsIdentity<H>(f: Fun<H>, rev: seq<H>)
    ensures Eval(f) == f && Val(f) == f
    ensures Eval(Eval(f)) == Eval(f) && Val(Val(f)) == Val(f)
    ensures Arity(Eval(f)) == Arity(f) && Tag(Eval(f)) == Tag(f)
    ensures Valid(f) && |rev| == Arity(f) ==> Run(Eval(f), rev) == Run(f, rev) && Run(Val(f), rev) == Run(f, rev)
  {
  }

  /** Coercion changes nothing but the static type: same body, arity and tag. */
  lemma CoerceIsIdentity<H>(f: Fun<H>, rev: seq<H>)
    ensures Coerce(f) == f
    ensures Valid(Coerce(f)) <==> Valid(f)
    ensures Arity(Coerce(f)) == Arity(f) && Tag(Coerce(f)) == Tag(f)
    ensures Valid(f) && |rev| == Arity(f) ==> Run(Coerce(f), rev) == Run(f, rev)
  {
  }
}

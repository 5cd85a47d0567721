/** The decorator-driven task pipeline: `task(depends_on)` registers a
    function at the front of the list or right after the task it depends
    on, and `run(x)` threads a value through the tasks in list order.
    A task is identified by a value of type `F` (Python compares the
    function objects themselves); what a task does is given by `call`. */
module TaskPipeline {
  import opened Wrappers

  /** Python's `list.index`: the position of the first occurrence. */
  function IndexOf<F(==)>(xs: seq<F>, x: F): (i: nat)
    requires x in xs
    ensures i < |xs| && xs[i] == x && x !in xs[..i]
  {
    if xs[0] == x then 0
    else
      var i := IndexOf(xs[1..], x);
      assert xs[..i + 1] == [xs[0]] + xs[1..][..i];
      i + 1
  }

  /** Python's `list.insert(i, x)` for an index within the list. */
  function InsertAt<F>(xs: seq<F>, i: nat, x: F): seq<F>
    requires i <= |xs|
  {
    xs[..i] + [x] + xs[i..]
  }

  /** Inserting adds exactly the new element at `i`: taking it out again
      gives back the old list, and nothing else is added or lost. */
  lemma InsertAtSpec<F>(xs: seq<F>, i: nat, x: F)
    requires i <= |xs|
    ensures var r := InsertAt(xs, i, x);
      |r| == |xs| + 1 && r[i] == x && r[..i] + r[i + 1..] == xs
      && multiset(r) == multiset(xs) + multiset{x}
  {
    var r := InsertAt(xs, i, x);
    assert r[..i] == xs[..i];
    assert r[i + 1..] == xs[i..];
    assert xs[..i] + xs[i..] == xs;
    calc {
      multiset(r);
      multiset(xs[..i] + [x]) + multiset(xs[i..]);
      multiset(xs[..i]) + multiset{x} + multiset(xs[i..]);
      { assert multiset(xs) == multiset(xs[..i]) + multiset(xs[i..]); }
      multiset(xs) + multiset{x};
    }
  }

  /** Where `task(depends_on)` inserts: the front without a dependency, right
      after the first occurrence of the dependency otherwise. */
  function TaskIndex<F(==)>(tasks: seq<F>, dependsOn: Option<F>): (r: Option<nat>)
    ensures dependsOn.None? ==> r == Some(0)
    ensures dependsOn.Some? ==> (r.Some? <==> dependsOn.value in tasks)
    ensures r.Some? ==> r.value <= |tasks|
    ensures r.Some? && dependsOn.Some? ==>
      0 < r.value && tasks[r.value - 1] == dependsOn.value
      && dependsOn.value !in tasks[..r.value - 1]
  {
    match dependsOn
    case None => Some(0)
    case Some(d) => if d in tasks then Some(IndexOf(tasks, d) + 1) else None
  }

  /** The tasks after registering `f`, or ValueError from `list.index`. */
  function Registered<F(==)>(tasks: seq<F>, f: F, dependsOn: Option<F>): Result<seq<F>, PyError> {
    match TaskIndex(tasks, dependsOn)
    case None => Failure(ValueError)
    case Some(i) => Success(InsertAt(tasks, i, f))
  }

  /** Registration fails exactly when the dependency is not registered;
      otherwise `f` sits at the front (no dependency) or right after the
      first occurrence of its dependency, and the other tasks keep their
      order. */
  lemma RegisteredSpec<F>(tasks: seq<F>, f: F, dependsOn: Option<F>)
    ensures Registered(tasks, f, dependsOn).Failure? <==>
      dependsOn.Some? && dependsOn.value !in tasks
    ensures Registered(tasks, f, dependsOn).Success? ==>
      var r := Registered(tasks, f, dependsOn).value;
      exists i :: 0 <= i < |r| && r[i] == f && r[..i] + r[i + 1..] == tasks
        && (dependsOn.None? ==> i == 0)
        && (dependsOn.Some? ==> 0 < i && r[i - 1] == dependsOn.value
                                && dependsOn.value !in r[..i - 1])
  {
    var k := TaskIndex(tasks, dependsOn);
    if k.Some? {
      var i := k.value;
      InsertAtSpec(tasks, i, f);
      var r := InsertAt(tasks, i, f);
      if dependsOn.Some? {
        assert r[..i - 1] == tasks[..i - 1];
      }
    }
  }

  /** `run(x)`: each task in list order receives the previous task's
      result. */
  function RunAll<F, X>(tasks: seq<F>, call: F -> X -> X, x: X): X
    decreases |tasks|
  {
    if |tasks| == 0 then x else RunAll(tasks[1..], call, call(tasks[0])(x))
  }

  /** Running a concatenation runs the first part, then the second. */
  lemma {:induction false} RunAllAppend<F, X>(a: seq<F>, b: seq<F>, call: F -> X -> X, x: X)
    ensures RunAll(a + b, call, x) == RunAll(b, call, RunAll(a, call, x))
    decreases |a|
  {
    if |a| > 0 {
      assert (a + b)[1..] == a[1..] + b;
      RunAllAppend(a[1..], b, call, call(a[0])(x));
    } else {
      assert a + b == b;
    }
  }

  /** A task registered without a dependency runs first, on the input. */
  lemma RunFirst<F, X>(tasks: seq<F>, f: F, call: F -> X -> X, x: X)
    ensures Registered(tasks, f, None).Success?
    ensures RunAll(Registered(tasks, f, None).value, call, x) == RunAll(tasks, call, call(f)(x))
  {
    var r := Registered(tasks, f, None).value;
    assert r == [f] + tasks;
    assert r[1..] == tasks;
  }

  /** A task registered after `d` receives what `d` returned and hands its
      result to the task that used to follow `d`. */
  lemma {:induction false} RunAfter<F, X>(tasks: seq<F>, f: F, d: F, call: F -> X -> X, x: X)
    requires d in tasks
    ensures Registered(tasks, f, Some(d)).Success?
    ensures var i := IndexOf(tasks, d) + 1;
      RunAll(Registered(tasks, f, Some(d)).value, call, x)
      == RunAll(tasks[i..], call, call(f)(RunAll(tasks[..i], call, x)))
  {
    var i := IndexOf(tasks, d) + 1;
    var r := Registered(tasks, f, Some(d)).value;
    assert r == tasks[..i] + ([f] + tasks[i..]);
    RunAllAppend(tasks[..i], [f] + tasks[i..], call, x);
    assert ([f] + tasks[i..])[1..] == tasks[i..];
  }

  /** The registry of one pipeline. */
  class Pipeline<F(==)> {
    var tasks: seq<F>

    constructor()
      ensures tasks == []
    {
      tasks := [];
    }

    /** `@pipeline.task(depends_on)` applied to `f`. */
    method Task(f: F, dependsOn: Option<F>) returns (r: Result<F, PyError>)
      modifies this
      ensures Registered(old(tasks), f, dependsOn).Success? ==>
        r == Success(f) && tasks == Registered(old(tasks), f, dependsOn).value
      ensures Registered(old(tasks), f, dependsOn).Failure? ==>
        r == Failure(ValueError) && tasks == old(tasks)
    {
      var idx := 0;
      if dependsOn.Some? {
        if dependsOn.value !in tasks {
          return Failure(ValueError);
        }
        idx := IndexOf(tasks, dependsOn.value) + 1;
      }
      tasks := tasks[..idx] + [f] + tasks[idx..];
      r := Success(f);
    }

    /** `run(x)`. */
    method Run<X>(x: X, call: F -> X -> X) returns (y: X)
      ensures y == RunAll(tasks, call, x)
    {
      y := x;
      for i := 0 to |tasks|
        invariant y == RunAll(tasks[..i], call, x)
      {
        RunAllAppend(tasks[..i], [tasks[i]], call, x);
        assert tasks[..i + 1] == tasks[..i] + [tasks[i]];
        y := call(tasks[i])(y);
      }
      assert tasks[..|tasks|] == tasks;
    }
  }
}

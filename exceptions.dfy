/**
 * Exceptions and their cause chains (ExceptionUtils.java).
 *
 * Every exception object lives in a finite graph: a sequence of nodes whose
 * index is the object's identity, each with an optional link to its cause.
 * A thrown value is a graph together with the id of the outermost object.
 * Creating an exception appends a node, so earlier ids keep their meaning.
 */
module Exceptions {
  import opened Wrappers

  type ExId = nat

  /** The exception classes the library throws, catches or dispatches on. */
  datatype Kind =
    | Timeout                 // java.util.concurrent.TimeoutException (checked)
    | Execution               // java.util.concurrent.ExecutionException (checked)
    | MethodArgumentNotValid  // Spring's field-validation failure (checked)
    | Completion              // java.util.concurrent.CompletionException
    | NotFound                // the library's NotFoundException
    | IllegalArgument
    | IllegalState
    | NullPointer
    | Arithmetic
    | ConstraintViolation     // jakarta.validation.ConstraintViolationException
    | Runtime                 // a plain RuntimeException (also what the store client throws)

  /** A class an `instanceof` test can name. */
  datatype ExClass = ThrowableClass | ExceptionClass | ClassOf(kind: Kind)

  /** One field error or constraint violation: its field or property path, and its text. */
  datatype Detail = Detail(name: string, text: string)

  datatype ExNode = ExNode(kind: Kind, message: Option<string>, details: seq<Detail>, cause: Option<ExId>)

  type ExGraph = seq<ExNode>

  /** Every cause link points at an object of the graph. */
  ghost predicate Closed(g: ExGraph) {
    forall i :: 0 <= i < |g| && g[i].cause.Some? ==> g[i].cause.value < |g|
  }

  datatype Raised = Raised(graph: ExGraph, top: ExId)

  /** An exception object together with every object reachable from it. */
  type Throwable = e: Raised | Closed(e.graph) && e.top < |e.graph|
    witness Raised([ExNode(Runtime, None, [], None)], 0)

  /** The outermost object of a thrown value. */
  function Top(e: Throwable): ExNode {
    e.graph[e.top]
  }

  function IsRuntime(k: Kind): bool {
    !(k == Timeout || k == Execution || k == MethodArgumentNotValid)
  }

  /** Java's `instanceof` over the modelled class hierarchy. */
  function IsInstance(k: Kind, c: ExClass): bool {
    match c
    case ThrowableClass => true
    case ExceptionClass => true
    case ClassOf(Runtime) => IsRuntime(k)
    case ClassOf(other) => k == other
  }

  /** `new K(message)`: a fresh exception without a cause. */
  function New(kind: Kind, message: Option<string>): (e: Throwable)
    ensures Top(e) == ExNode(kind, message, [], None)
  {
    Raised([ExNode(kind, message, [], None)], 0)
  }

  /** A fresh exception without a cause that carries field errors or violations. */
  function NewWithDetails(kind: Kind, message: Option<string>, details: seq<Detail>): (e: Throwable)
    ensures Top(e) == ExNode(kind, message, details, None)
  {
    Raised([ExNode(kind, message, details, None)], 0)
  }

  /** `new K(message, cause)`: a fresh exception whose cause is the given one. */
  function Wrap(kind: Kind, message: Option<string>, cause: Throwable): (e: Throwable)
    ensures |e.graph| == |cause.graph| + 1
    ensures e.graph[..|cause.graph|] == cause.graph
    ensures Top(e) == ExNode(kind, message, [], Some(cause.top))
  {
    var g := cause.graph + [ExNode(kind, message, [], Some(cause.top))];
    assert forall i :: 0 <= i < |cause.graph| ==> g[i] == cause.graph[i];
    Raised(g, |cause.graph|)
  }

  /**
   * What a failed future holds: the exception itself when it already is a
   * CompletionException, otherwise a CompletionException around it. The
   * wrapper's message (the cause's toString()) is not modelled.
   */
  function AsCompletion(e: Throwable): (r: Throwable)
    ensures Top(r).kind == Completion
    ensures Top(e).kind == Completion ==> r == e
    ensures Top(e).kind != Completion ==> Top(r).cause == Some(e.top) && |r.graph| == |e.graph| + 1 && r.graph[..|e.graph|] == e.graph
  {
    if Top(e).kind == Completion then e else Wrap(Completion, None, e)
  }

  /** The identities of the first `n` objects. */
  function Ids(n: nat): (s: set<ExId>)
    ensures forall i: ExId :: i in s <==> i < n
    ensures |s| == n
  {
    if n == 0 then {} else Ids(n - 1) + {n - 1}
  }

  /**
   * The walk of `unwrap` from `t` with the objects already passed in `visited`:
   * follow the cause link while there is one and it has not been passed.
   * Only a self-caused object can be the current one and already passed.
   */
  function UnwrapFrom(g: ExGraph, t: ExId, visited: set<ExId>): (r: ExId)
    requires Closed(g) && t < |g| && visited <= Ids(|g|)
    requires t in visited ==> g[t].cause == Some(t)
    ensures r < |g|
    decreases |Ids(|g|) - visited|
  {
    match g[t].cause
    case Some(c) =>
      if c in visited then t
      else
        assert Ids(|g|) - (visited + {t}) == (Ids(|g|) - visited) - {t};
        UnwrapFrom(g, c, visited + {t})
    case None => t
  }

  /** The exception `unwrap(e)` returns: the same graph, another outermost object. */
  function Innermost(e: Throwable): (r: Throwable)
    ensures r.graph == e.graph
  {
    Raised(e.graph, UnwrapFrom(e.graph, e.top, {}))
  }

  /** The object `unwrap` stops at. */
  function Root(e: Throwable): ExNode {
    Top(Innermost(e))
  }

  /** One step of the walk: pass `t` and continue from its cause. */
  lemma UnwrapFromStep(g: ExGraph, t: ExId, visited: set<ExId>)
    requires Closed(g) && t < |g| && visited <= Ids(|g|)
    requires t in visited ==> g[t].cause == Some(t)
    requires g[t].cause.Some? && g[t].cause.value !in visited
    ensures t !in visited && visited + {t} <= Ids(|g|)
    ensures |Ids(|g|) - (visited + {t})| < |Ids(|g|) - visited|
    ensures UnwrapFrom(g, t, visited) == UnwrapFrom(g, g[t].cause.value, visited + {t})
  {
    assert Ids(|g|) - (visited + {t}) == (Ids(|g|) - visited) - {t};
  }

  /** ExceptionUtils.unwrap: the loop with its visited set. */
  method Unwrap(e: Throwable) returns (r: Throwable)
    ensures r == Innermost(e)
  {
    var g := e.graph;
    var t: ExId := e.top;
    var visited: set<ExId> := {};
    while g[t].cause.Some? && g[t].cause.value !in visited
      invariant t < |g| && visited <= Ids(|g|)
      invariant t in visited ==> g[t].cause == Some(t)
      invariant UnwrapFrom(g, t, visited) == UnwrapFrom(g, e.top, {})
      decreases |Ids(|g|) - visited|
    {
      UnwrapFromStep(g, t, visited);
      visited := visited + {t};
      t := g[t].cause.value;
    }
    r := Raised(g, t);
  }

  /** ExceptionUtils.unwrapAndCast: the unwrapped exception when it is an instance of `c`, else null. */
  function UnwrapAndCast(e: Throwable, c: ExClass): (r: Option<Throwable>)
    ensures r.Some? <==> IsInstance(Root(e).kind, c)
    ensures r.Some? ==> r.value == Innermost(e)
  {
    var u := Innermost(e);
    if IsInstance(Top(u).kind, c) then Some(u) else None
  }

  /** ExceptionUtils.isCausedBy. */
  function IsCausedBy(e: Throwable, c: ExClass): (b: bool)
    ensures b <==> UnwrapAndCast(e, c).Some?
  {
    IsInstance(Root(e).kind, c)
  }

  // ---------------------------------------------------------------------
  // Properties of unwrap
  // ---------------------------------------------------------------------

  /** An exception without a cause unwraps to itself. */
  lemma UnwrapWithoutCause(e: Throwable)
    requires Top(e).cause.None?
    ensures Innermost(e) == e
  {
  }

  /** A sequence of objects, each the cause of the one before. */
  ghost predicate IsCauseChain(g: ExGraph, p: seq<ExId>) {
    && |p| > 0
    && (forall i :: 0 <= i < |p| ==> p[i] < |g|)
    && (forall i :: 0 <= i < |p| - 1 ==> g[p[i]].cause == Some(p[i + 1]))
  }

  ghost predicate Distinct(p: seq<ExId>) {
    forall i, j :: 0 <= i < j < |p| ==> p[i] != p[j]
  }

  lemma {:induction false} UnwrapFromFollowsChain(g: ExGraph, p: seq<ExId>, visited: set<ExId>)
    requires Closed(g) && IsCauseChain(g, p) && Distinct(p)
    requires g[p[|p| - 1]].cause.None?
    requires visited <= Ids(|g|)
    requires forall i :: 0 <= i < |p| ==> p[i] !in visited
    ensures UnwrapFrom(g, p[0], visited) == p[|p| - 1]
    decreases |p|
  {
    if |p| > 1 {
      assert g[p[0]].cause == Some(p[1]);
      var q := p[1..];
      assert forall i :: 0 <= i < |q| ==> q[i] == p[i + 1];
      forall i | 0 <= i < |q|
        ensures q[i] !in visited + {p[0]}
      {
        assert p[i + 1] != p[0];
      }
      UnwrapFromFollowsChain(g, q, visited + {p[0]});
    }
  }

  /**
   * Through any number of wrappers: along a cause chain of distinct objects
   * that ends in an object without a cause, unwrap returns that last object.
   */
  lemma UnwrapFollowsChain(e: Throwable, p: seq<ExId>)
    requires IsCauseChain(e.graph, p) && Distinct(p) && p[0] == e.top
    requires e.graph[p[|p| - 1]].cause.None?
    ensures Innermost(e).top == p[|p| - 1]
  {
    UnwrapFromFollowsChain(e.graph, p, {});
  }

  lemma {:induction false} UnwrapFromIgnoresNewTop(g: ExGraph, n: ExNode, t: ExId, visited: set<ExId>)
    requires Closed(g) && Closed(g + [n]) && t < |g| && visited <= Ids(|g|)
    requires t in visited ==> g[t].cause == Some(t)
    ensures UnwrapFrom(g + [n], t, visited + {|g|}) == UnwrapFrom(g, t, visited)
    decreases |Ids(|g|) - visited|
  {
    var h := g + [n];
    assert h[t] == g[t];
    match g[t].cause
    case Some(c) =>
      if c !in visited {
        assert Ids(|g|) - (visited + {t}) == (Ids(|g|) - visited) - {t};
        assert visited + {|g|} + {t} == visited + {t} + {|g|};
        UnwrapFromIgnoresNewTop(g, n, c, visited + {t});
      }
    case None =>
  }

  lemma {:induction false} UnwrapFromIgnoresNewObject(g: ExGraph, n: ExNode, t: ExId, visited: set<ExId>)
    requires Closed(g) && Closed(g + [n]) && t < |g| && visited <= Ids(|g|)
    requires t in visited ==> g[t].cause == Some(t)
    ensures UnwrapFrom(g + [n], t, visited) == UnwrapFrom(g, t, visited)
    decreases |Ids(|g|) - visited|
  {
    var h := g + [n];
    assert h[t] == g[t];
    match g[t].cause
    case Some(c) =>
      if c !in visited {
        assert Ids(|g|) - (visited + {t}) == (Ids(|g|) - visited) - {t};
        UnwrapFromIgnoresNewObject(g, n, c, visited + {t});
      }
    case None =>
  }

  /**
   * The cause of a wrapper, taken as the object of the wrapper's graph that
   * it is, is the object that was wrapped: same node, same root.
   */
  lemma CauseOfWrap(kind: Kind, message: Option<string>, cause: Throwable)
    ensures var w := Wrap(kind, message, cause);
      var c: Throwable := Raised(w.graph, cause.top);
      Top(c) == Top(cause) && Root(c) == Root(cause)
  {
    var w := Wrap(kind, message, cause);
    assert w.graph == cause.graph + [Top(w)];
    UnwrapFromIgnoresNewObject(cause.graph, Top(w), cause.top, {});
    assert w.graph[Innermost(cause).top] == cause.graph[Innermost(cause).top];
  }

  /** Wrapping an exception does not change what it unwraps to. */
  lemma UnwrapSeesThroughWrap(kind: Kind, message: Option<string>, cause: Throwable)
    ensures Innermost(Wrap(kind, message, cause)).top == Innermost(cause).top
    ensures Root(Wrap(kind, message, cause)) == Root(cause)
  {
    var w := Wrap(kind, message, cause);
    var g := cause.graph;
    assert w.graph == g + [Top(w)];
    assert w.top == |g| && w.graph[w.top].cause == Some(cause.top);
    assert cause.top !in {} && {} + {w.top} == {|g|};
    assert UnwrapFrom(w.graph, w.top, {}) == UnwrapFrom(w.graph, cause.top, {|g|});
    UnwrapFromIgnoresNewTop(g, Top(w), cause.top, {});
    assert w.graph[Innermost(cause).top] == g[Innermost(cause).top];
  }

  /** Wrapping in a CompletionException (as a failed future does) keeps the root. */
  lemma UnwrapSeesThroughCompletion(e: Throwable)
    ensures Root(AsCompletion(e)) == Root(e)
  {
    if Top(e).kind != Completion {
      UnwrapSeesThroughWrap(Completion, None, e);
    }
  }

  /** The two-object cycle a -> b -> a, built with a.initCause(b). */
  function CycleAB(): Throwable {
    Raised([ExNode(Runtime, Some("A"), [], Some(1)), ExNode(Runtime, Some("B"), [], Some(0))], 0)
  }

  /** unwrap terminates on a cycle and stops at the last object not yet passed: b. */
  lemma UnwrapStopsOnCycle()
    ensures Innermost(CycleAB()).top == 1
    ensures Root(CycleAB()).message == Some("B")
  {
  }

  /**
   * Unwrapping twice gives the same object when the chain ends, but not on a
   * cycle: unwrapping b again walks b -> a and stops at a.
   */
  lemma UnwrapTwice(e: Throwable)
    ensures Root(e).cause.None? ==> Innermost(Innermost(e)) == Innermost(e)
    ensures Innermost(Innermost(CycleAB())).top == 0
  {
  }

  /** The objects `unwrap` passes from `t`, ending with the one it returns. */
  ghost function TrailFrom(g: ExGraph, t: ExId, visited: set<ExId>): (p: seq<ExId>)
    requires Closed(g) && t < |g| && visited <= Ids(|g|)
    requires t in visited ==> g[t].cause == Some(t)
    ensures |p| > 0 && p[0] == t && p[|p| - 1] == UnwrapFrom(g, t, visited)
    decreases |Ids(|g|) - visited|
  {
    match g[t].cause
    case Some(c) =>
      if c in visited then [t]
      else
        UnwrapFromStep(g, t, visited);
        [t] + TrailFrom(g, c, visited + {t})
    case None => [t]
  }

  /** One step of the trail: `t`, then the trail from its cause. */
  lemma TrailFromStep(g: ExGraph, t: ExId, visited: set<ExId>)
    requires Closed(g) && t < |g| && visited <= Ids(|g|)
    requires t in visited ==> g[t].cause == Some(t)
    requires g[t].cause.Some? && g[t].cause.value !in visited
    ensures t !in visited && visited + {t} <= Ids(|g|)
    ensures |Ids(|g|) - (visited + {t})| < |Ids(|g|) - visited|
    ensures TrailFrom(g, t, visited) == [t] + TrailFrom(g, g[t].cause.value, visited + {t})
  {
    assert Ids(|g|) - (visited + {t}) == (Ids(|g|) - visited) - {t};
  }

  /** An object followed by a chain from its cause is a chain. */
  lemma ChainCons(g: ExGraph, t: ExId, q: seq<ExId>)
    requires t < |g| && IsCauseChain(g, q) && g[t].cause == Some(q[0])
    ensures IsCauseChain(g, [t] + q)
    ensures ([t] + q)[..|q|] == [t] + q[..|q| - 1] && ([t] + q)[|q|] == q[|q| - 1]
  {
    var p := [t] + q;
    assert forall i :: 1 <= i < |p| ==> p[i] == q[i - 1];
  }

  lemma {:induction false} TrailFromIsChain(g: ExGraph, t: ExId, visited: set<ExId>)
    requires Closed(g) && t < |g| && visited <= Ids(|g|)
    requires t in visited ==> g[t].cause == Some(t)
    ensures var p := TrailFrom(g, t, visited);
      && IsCauseChain(g, p)
      && var r := p[|p| - 1];
         (g[r].cause.None? || g[r].cause.value in visited || g[r].cause.value in p[..|p| - 1])
    decreases |Ids(|g|) - visited|
  {
    if g[t].cause.Some? && g[t].cause.value !in visited {
      var c := g[t].cause.value;
      TrailFromStep(g, t, visited);
      TrailFromIsChain(g, c, visited + {t});
      var q := TrailFrom(g, c, visited + {t});
      ChainCons(g, t, q);
    }
  }

  /**
   * The object unwrap returns is reachable from the input through cause links,
   * and the walk stopped only at the end of the chain or on a revisit: the
   * returned object's cause, if any, is an object the walk already passed.
   */
  lemma UnwrapResultReachable(e: Throwable)
    ensures var p := TrailFrom(e.graph, e.top, {});
      && IsCauseChain(e.graph, p) && p[0] == e.top && p[|p| - 1] == Innermost(e).top
      && (Root(e).cause.None? || Root(e).cause.value in p[..|p| - 1])
  {
    var p := TrailFrom(e.graph, e.top, {});
    TrailFromIsChain(e.graph, e.top, {});
    if Root(e).cause.Some? {
      assert Root(e).cause.value in p[..|p| - 1];
    }
  }

  /** isCausedBy sees through CompletionException and RuntimeException wrappers. */
  lemma IsCausedByThroughWrappers(root: Throwable, c: ExClass)
    requires Top(root).cause.None?
    ensures IsCausedBy(AsCompletion(Wrap(Runtime, None, root)), c) <==> IsInstance(Top(root).kind, c)
  {
    UnwrapSeesThroughCompletion(Wrap(Runtime, None, root));
    UnwrapSeesThroughWrap(Runtime, None, root);
  }
}

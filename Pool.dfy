/**
 * `execute_function_in_parallel`: runs a function over a list of argument
 * tuples on a worker pool, waits for all of them, and keeps the results
 * that are not `None`. The pool itself (threads or processes, shared or
 * local) only decides where the calls run; here the calls are made one
 * after another, in the order of the arguments, which is also the order
 * `starmap_async(...).get()` returns them in.
 */
module Pool {
  import opened Wrappers

  /** `[result for result in results if result is not None]` */
  function DropNone<B>(results: seq<Option<B>>): (r: seq<B>)
    ensures |r| <= |results|
    ensures forall i :: 0 <= i < |r| ==> Some(r[i]) in results
    ensures forall i :: 0 <= i < |results| && results[i].Some? ==> results[i].value in r
  {
    if results == [] then []
    else (if results[0].Some? then [results[0].value] else []) + DropNone(results[1..])
  }

  /** Dropping `None` keeps the order of the remaining results. */
  lemma {:induction false} DropNoneAppend<B>(a: seq<Option<B>>, b: seq<Option<B>>)
    ensures DropNone(a + b) == DropNone(a) + DropNone(b)
  {
    if a == [] {
      assert a + b == b;
    } else {
      assert (a + b)[1..] == a[1..] + b;
      DropNoneAppend(a[1..], b);
    }
  }

  /** Nothing is dropped exactly when every call produced a result. */
  lemma {:induction false} DropNoneKeepsAll<B>(results: seq<Option<B>>)
    ensures |DropNone(results)| == |results| <==> forall i :: 0 <= i < |results| ==> results[i].Some?
  {
    if results != [] {
      DropNoneKeepsAll(results[1..]);
      assert forall i :: 1 <= i < |results| ==> results[i] == results[1..][i - 1];
    }
  }

  /** `pool.starmap_async(func, list_args).get()`: one result per argument, in order. */
  function MapAll<A, B>(func: A -> Option<B>, args: seq<A>): (results: seq<Option<B>>)
    ensures |results| == |args|
    ensures forall i :: 0 <= i < |args| ==> results[i] == func(args[i])
  {
    seq(|args|, i requires 0 <= i < |args| => func(args[i]))
  }

  /**
   * `execute_function_in_parallel(func, list_args)`; `func` is `None` when
   * the caller passes a falsy function. With no function or no arguments
   * the result is empty; otherwise it holds exactly the results that are
   * not `None`, never more than there were arguments.
   */
  function ExecuteInParallel<A, B>(func: Option<A -> Option<B>>, args: seq<A>): (r: seq<B>)
    ensures func.None? || args == [] ==> r == []
    ensures |r| <= |args|
    ensures func.Some? ==> forall i :: 0 <= i < |r| ==> exists j :: 0 <= j < |args| && func.value(args[j]) == Some(r[i])
    ensures func.Some? ==> forall j :: 0 <= j < |args| && func.value(args[j]).Some? ==> func.value(args[j]).value in r
  {
    if func.None? || args == [] then [] else DropNone(MapAll(func.value, args))
  }

  /** A result is collected exactly when some argument produced it. */
  lemma ExecuteCollects<A, B>(func: A -> Option<B>, args: seq<A>, b: B)
    ensures b in ExecuteInParallel(Some(func), args) <==> exists i :: 0 <= i < |args| && func(args[i]) == Some(b)
  {
    var results := MapAll(func, args);
    if Some(b) in results {
      var i :| 0 <= i < |results| && results[i] == Some(b);
      assert func(args[i]) == Some(b);
    }
    if exists i :: 0 <= i < |args| && func(args[i]) == Some(b) {
      var i :| 0 <= i < |args| && func(args[i]) == Some(b);
      assert results[i] == Some(b);
    }
  }

  /** Results come back in the order of the arguments. */
  lemma ExecuteInOrder<A, B>(func: A -> Option<B>, a: seq<A>, b: seq<A>)
    ensures ExecuteInParallel(Some(func), a + b) == ExecuteInParallel(Some(func), a) + ExecuteInParallel(Some(func), b)
  {
    assert MapAll(func, a + b) == MapAll(func, a) + MapAll(func, b);
    DropNoneAppend(MapAll(func, a), MapAll(func, b));
  }

  /** Calls that all return `None`, as `download_file` and `check_course` do, leave nothing. */
  lemma {:induction false} DropNoneAllNone<B>(results: seq<Option<B>>)
    requires forall i :: 0 <= i < |results| ==> results[i].None?
    ensures DropNone(results) == []
  {
    if results != [] {
      assert forall i :: 0 <= i < |results[1..]| ==> results[1..][i] == results[i + 1];
      DropNoneAllNone(results[1..]);
    }
  }

  /** Running a function that always returns `None` gives back an empty list. */
  lemma ExecuteOnlyNone<A, B>(func: A -> Option<B>, args: seq<A>)
    requires forall i :: 0 <= i < |args| ==> func(args[i]).None?
    ensures ExecuteInParallel(Some(func), args) == []
  {
    DropNoneAllNone(MapAll(func, args));
  }
}

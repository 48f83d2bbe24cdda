/** Values shared by both generations of the bundler: the optional value a
    JavaScript `undefined` stands for, the errors a run can end with, and the
    two shapes the assembled output can take. */
module Common {

  /** `None` models a JavaScript value that is `undefined` or `null`. */
  datatype Option<T> = None | Some(value: T)

  /** The ways a run is rejected. */
  datatype Error =
    | ReadFailed(fileName: string)          // the file reader rejected this name
    | UnsafeObjectName                      // 'cannot transform module id into object name: '
    | CircularDependency                    // 'circular dependency'

  /** A rejected promise or a thrown error becomes `Err`. */
  datatype Result<T> = Ok(value: T) | Err(error: Error)

  /** Without `combine` the module list itself is the output; with it, one script. */
  datatype Output<M> = ModuleList(modules: seq<M>) | Script(text: string)

  /** A non-empty right operand with its last element split off. */
  lemma SplitLast<T>(a: seq<T>, b: seq<T>)
    requires b != []
    ensures a + b == (a + b[..|b| - 1]) + [b[|b| - 1]]
    ensures b == b[..|b| - 1] + [b[|b| - 1]]
  {
  }

  /** A sequence split around its element at `i`. */
  lemma SplitAt<T>(s: seq<T>, i: nat)
    requires i < |s|
    ensures s == s[..i] + ([s[i]] + s[i + 1..])
  {
  }

  /** Concatenation is associative. */
  lemma Associate<T>(x: seq<T>, y: seq<T>, z: seq<T>)
    ensures (x + y) + z == x + (y + z)
  {
  }

  /** No element occurs twice. */
  predicate Distinct<T(==)>(s: seq<T>)
  {
    forall i, j :: 0 <= i < j < |s| ==> s[i] != s[j]
  }
}

/** `src/moduleSorter.js`: orders module records so that, by the comparator's
    reckoning, dependencies come first. `Array.prototype.sort` is modelled
    as the insertion sort the V8 engine runs on short arrays: each element
    is compared with the sorted ones from the right, and moved left past
    every element the comparator puts after it. */
module ModuleSorter {
  import opened Common
  import opened ModuleFactory

  /** The `some` scan of `dependsOn`: does a record in `deps` carry `name`? */
  function AnyHasName(deps: seq<Module>, name: string): (b: bool)
    ensures b <==> exists i :: 0 <= i < |deps| && deps[i].moduleName == name
  {
    if deps == [] then false
    else if deps[0].moduleName == name then true
    else
      var b := AnyHasName(deps[1..], name);
      assert b ==> exists i :: 0 <= i < |deps| && deps[i].moduleName == name by {
        if b {
          var i :| 0 <= i < |deps[1..]| && deps[1..][i].moduleName == name;
          assert deps[i + 1].moduleName == name;
        }
      }
      assert (exists i :: 0 <= i < |deps| && deps[i].moduleName == name) ==> b by {
        if exists i :: 0 <= i < |deps| && deps[i].moduleName == name {
          var i :| 0 <= i < |deps| && deps[i].moduleName == name;
          assert i != 0;
          assert deps[1..][i - 1].moduleName == name;
        }
      }
      b
  }

  /** `dependsOn(module, dependency)`: some dependency record of `m`
      has the module name of `dependency`. */
  predicate DependsOn(m: Module, dependency: Module)
  {
    AnyHasName(m.dependencies, dependency.moduleName)
  }

  /** The number of dependencies, which the comparator looks at first. */
  function Count(m: Module): nat
  {
    |m.dependencies|
  }

  /** The comparator: by dependency count, then by direct dependency; two
      modules with equal counts that depend on each other are rejected. */
  function Compare(first: Module, second: Module): (r: Result<int>)
    ensures r.Err? <==> Count(first) == Count(second) && DependsOn(first, second) && DependsOn(second, first)
    ensures r.Err? ==> r.error == CircularDependency
    ensures r.Ok? ==> r.value == 1 || r.value == -1
    ensures Count(first) < Count(second) ==> r == Ok(-1)
    ensures Count(first) > Count(second) ==> r == Ok(1)
    ensures Count(first) == Count(second) && r.Ok? ==> (r.value == 1 <==> DependsOn(first, second))
  {
    if Count(first) != Count(second) then
      Ok(if Count(first) > Count(second) then 1 else -1)
    else
      var firstDependsOnSecond := DependsOn(first, second);
      var secondDependsOnFirst := DependsOn(second, first);
      if firstDependsOnSecond && secondDependsOnFirst then Err(CircularDependency)
      else Ok(if firstDependsOnSecond then 1 else -1)
  }

  /** The comparator never answers "equal", and it only ever disagrees with
      itself in one way: each of two modules asks to go first exactly when
      their counts are equal and neither depends on the other. */
  lemma {:induction false} CompareAntisymmetry(a: Module, b: Module)
    ensures Compare(a, b) == Ok(1) ==> Compare(b, a) == Ok(-1)
    ensures Compare(a, b) == Ok(-1) && Compare(b, a) == Ok(-1)
            <==> Count(a) == Count(b) && !DependsOn(a, b) && !DependsOn(b, a)
    ensures Compare(a, b).Err? <==> Compare(b, a).Err?
  {
  }

  /** `r` with `suffix` appended to its value; an error stays as it is. */
  function Append(r: Result<seq<Module>>, suffix: seq<Module>): Result<seq<Module>>
  {
    if r.Ok? then Ok(r.value + suffix) else r
  }

  /** One insertion step: `x` is compared with the sorted elements from the
      right and placed after the first one the comparator does not put
      after it. */
  function Insert(sorted: seq<Module>, x: Module): Result<seq<Module>>
  {
    if sorted == [] then Ok([x])
    else
      var last := sorted[|sorted| - 1];
      var order := Compare(last, x);
      if order.Err? then Err(order.error)
      else if order.value > 0 then Append(Insert(sorted[..|sorted| - 1], x), [last])
      else Ok(sorted + [x])
  }

  /** Inserts the elements of `rest` one after another into `acc`. */
  function SortFrom(acc: seq<Module>, rest: seq<Module>): Result<seq<Module>>
    decreases |rest|
  {
    if rest == [] then Ok(acc)
    else
      var step := Insert(acc, rest[0]);
      if step.Err? then step else SortFrom(step.value, rest[1..])
  }

  /** The order `sortByDependency` returns, or the error it throws. */
  function Sort(modules: seq<Module>): Result<seq<Module>>
  {
    SortFrom([], modules)
  }

  /** Every neighbour pair is in the order the comparator asks for. */
  predicate Ordered(s: seq<Module>)
  {
    forall k :: 0 <= k < |s| - 1 ==> Compare(s[k], s[k + 1]) == Ok(-1)
  }

  /** `sortByDependency`: sorts a copy of the list in place. */
  method SortByDependency(modules: seq<Module>) returns (r: Result<seq<Module>>)
    ensures r == Sort(modules)
    ensures r.Ok? ==> multiset(r.value) == multiset(modules) && Ordered(r.value)
    ensures r.Err? ==> r.error == CircularDependency
  {
    SortIsOrderedPermutation(modules);
    var a := new Module[|modules|](k requires 0 <= k < |modules| => modules[k]);
    var i := 0;
    while i < a.Length
      invariant 0 <= i <= a.Length
      invariant a[i..] == modules[i..]
      invariant Sort(modules) == SortFrom(a[..i], modules[i..])
    {
      ghost var s := a[..i];
      assert modules[i..] == [modules[i]] + modules[i + 1..];
      var failure := InsertElement(a, i);
      if failure.Some? {
        return Err(failure.value);
      }
      i := i + 1;
    }
    assert a[..] == a[..i];
    r := Ok(a[..]);
  }

  /** One pass of the insertion sort: `a[i]` moves left past the sorted
      elements `a[..i]` that the comparator puts after it. */
  method InsertElement(a: array<Module>, i: nat) returns (failure: Option<Error>)
    requires i < a.Length
    modifies a
    ensures failure.None? <==> Insert(old(a[..i]), old(a[i])).Ok?
    ensures failure.Some? ==> Insert(old(a[..i]), old(a[i])) == Err(failure.value)
    ensures failure.None? ==> a[..i + 1] == Insert(old(a[..i]), old(a[i])).value
    ensures a[i + 1..] == old(a[i + 1..])
  {
    var x := a[i];
    ghost var s := a[..i];
    ghost var tail := a[i + 1..];
    var j := i - 1;
    var done := false;
    while j >= 0 && !done
      invariant -1 <= j < i
      invariant a[..j + 1] == s[..j + 1]
      invariant a[j + 2..i + 1] == s[j + 1..]
      invariant a[i + 1..] == tail
      invariant forall k :: j < k < i ==> Compare(s[k], x) == Ok(1)
      invariant done ==> j >= 0 && Compare(s[j], x) == Ok(-1)
      decreases j + 1, !done
    {
      assert a[j] == s[j] by { assert a[j] == a[..j + 1][j]; }
      var order := Compare(a[j], x);
      if order.Err? {
        InsertFailsAt(s, j, x);
        return Some(order.error);
      }
      if order.value > 0 {
        ghost var before := a[..];
        a[j + 1] := a[j];
        Shifted(before, a[..], s, j, i);
        j := j - 1;
      } else {
        done := true;
      }
    }
    ghost var before := a[..];
    a[j + 1] := x;
    Filled(before, a[..], s, j, i, x);
    InsertAt(s, j, x);
    failure := None;
  }

  /** One step of a pass: `a[j]` is copied one place to the right, and the
      gap moves one place to the left. */
  lemma Shifted(before: seq<Module>, after: seq<Module>, s: seq<Module>, j: nat, i: nat)
    requires j < i < |before| && |s| == i
    requires after == before[j + 1 := before[j]]
    requires before[..j + 1] == s[..j + 1]
    requires before[j + 2..i + 1] == s[j + 1..]
    ensures after[..j] == s[..j]
    ensures after[j + 1..i + 1] == s[j..]
    ensures after[i + 1..] == before[i + 1..]
  {
    assert before[j] == before[..j + 1][j];
    assert after[j + 1..i + 1] == [before[j]] + before[j + 2..i + 1];
  }

  /** The end of a pass: the element fills the gap, between the untouched
      front and the shifted elements. */
  lemma Filled(before: seq<Module>, after: seq<Module>, s: seq<Module>, j: int, i: nat, x: Module)
    requires -1 <= j < i < |before| && |s| == i
    requires after == before[j + 1 := x]
    requires before[..j + 1] == s[..j + 1]
    requires before[j + 2..i + 1] == s[j + 1..]
    ensures after[..i + 1] == s[..j + 1] + [x] + s[j + 1..]
    ensures after[i + 1..] == before[i + 1..]
  {
    assert after[..i + 1] == before[..j + 1] + [x] + before[j + 2..i + 1];
  }

  /** Where an insertion ends: `x` goes right after the first element, from
      the right, that the comparator puts before it. */
  lemma {:induction false} InsertAt(s: seq<Module>, j: int, x: Module)
    requires -1 <= j < |s|
    requires j >= 0 ==> Compare(s[j], x) == Ok(-1)
    requires forall k :: j < k < |s| ==> Compare(s[k], x) == Ok(1)
    ensures Insert(s, x) == Ok(s[..j + 1] + [x] + s[j + 1..])
    decreases |s|
  {
    if s == [] {
      assert s[..j + 1] + [x] + s[j + 1..] == [x];
    } else if j == |s| - 1 {
      InsertAfterLast(s, x);
      assert s[..j + 1] + [x] + s[j + 1..] == s + [x];
    } else {
      var init := s[..|s| - 1];
      var last := s[|s| - 1];
      InsertBeforeLast(s, x);
      InsertAt(init, j, x);
      assert init[..j + 1] == s[..j + 1];
      assert init[j + 1..] + [last] == s[j + 1..];
      assert init[..j + 1] + [x] + init[j + 1..] + [last] == s[..j + 1] + [x] + s[j + 1..];
    }
  }

  lemma InsertAfterLast(s: seq<Module>, x: Module)
    requires s != [] && Compare(s[|s| - 1], x) == Ok(-1)
    ensures Insert(s, x) == Ok(s + [x])
  {
  }

  lemma InsertBeforeLast(s: seq<Module>, x: Module)
    requires s != [] && Compare(s[|s| - 1], x) == Ok(1)
    ensures Insert(s, x) == Append(Insert(s[..|s| - 1], x), [s[|s| - 1]])
  {
  }

  /** An insertion fails at the first element, from the right, that the
      comparator rejects. */
  lemma {:induction false} InsertFailsAt(s: seq<Module>, j: nat, x: Module)
    requires j < |s| && Compare(s[j], x).Err?
    requires forall k :: j < k < |s| ==> Compare(s[k], x) == Ok(1)
    ensures Insert(s, x) == Err(Compare(s[j], x).error)
    decreases |s|
  {
    if j < |s| - 1 {
      InsertFailsAt(s[..|s| - 1], j, x);
    }
  }

  /** Inserting keeps the neighbour order and adds exactly the new element. */
  lemma {:induction false} InsertKeepsOrder(sorted: seq<Module>, x: Module)
    requires Ordered(sorted)
    ensures Insert(sorted, x).Ok? ==>
              Ordered(Insert(sorted, x).value)
              && multiset(Insert(sorted, x).value) == multiset(sorted) + multiset{x}
    decreases |sorted|
  {
    if sorted != [] && Insert(sorted, x).Ok? {
      var init := sorted[..|sorted| - 1];
      var last := sorted[|sorted| - 1];
      assert sorted == init + [last];
      if Compare(last, x).value > 0 {
        assert Ordered(init);
        InsertKeepsOrder(init, x);
        var t := Insert(init, x).value;
        assert Insert(sorted, x).value == t + [last];
        CompareAntisymmetry(last, x);
        if init != [] {
          InsertLast(init, x);
          assert Compare(init[|init| - 1], last) == Ok(-1);
        }
        OrderedSnoc(t, last);
      } else {
        OrderedSnoc(sorted, x);
      }
    }
  }

  /** An element the last one is ordered before extends an ordered list. */
  lemma OrderedSnoc(t: seq<Module>, y: Module)
    requires Ordered(t)
    requires t == [] || Compare(t[|t| - 1], y) == Ok(-1)
    ensures Ordered(t + [y])
  {
    var u := t + [y];
    forall k | 0 <= k < |u| - 1
      ensures Compare(u[k], u[k + 1]) == Ok(-1)
    {
      if k < |t| - 1 {
        assert u[k] == t[k] && u[k + 1] == t[k + 1];
      }
    }
  }

  /** The last element after an insertion is the old last element or `x`. */
  lemma {:induction false} InsertLast(sorted: seq<Module>, x: Module)
    requires sorted != [] && Insert(sorted, x).Ok?
    ensures var t := Insert(sorted, x).value;
            t != [] && (t[|t| - 1] == sorted[|sorted| - 1] || t[|t| - 1] == x)
  {
  }

  /** Each sorting step keeps the neighbour order and the elements. */
  lemma {:induction false} SortFromKeepsOrder(acc: seq<Module>, rest: seq<Module>)
    requires Ordered(acc)
    ensures SortFrom(acc, rest).Ok? ==>
              Ordered(SortFrom(acc, rest).value)
              && multiset(SortFrom(acc, rest).value) == multiset(acc) + multiset(rest)
    ensures SortFrom(acc, rest).Err? ==> SortFrom(acc, rest).error == CircularDependency
    decreases |rest|
  {
    if rest != [] {
      var step := Insert(acc, rest[0]);
      InsertErrors(acc, rest[0]);
      if step.Ok? {
        InsertKeepsOrder(acc, rest[0]);
        SortFromKeepsOrder(step.value, rest[1..]);
        assert rest == [rest[0]] + rest[1..];
      }
    }
  }

  /** The only error an insertion raises is the comparator's. */
  lemma {:induction false} InsertErrors(sorted: seq<Module>, x: Module)
    ensures Insert(sorted, x).Err? ==> Insert(sorted, x).error == CircularDependency
    decreases |sorted|
  {
    if sorted != [] {
      InsertErrors(sorted[..|sorted| - 1], x);
    }
  }

  /** The result is a permutation of the input in which each neighbour pair
      is in the comparator's order; the only failure is the cycle error. */
  lemma SortIsOrderedPermutation(modules: seq<Module>)
    ensures Sort(modules).Ok? ==>
              Ordered(Sort(modules).value) && multiset(Sort(modules).value) == multiset(modules)
    ensures Sort(modules).Err? ==> Sort(modules).error == CircularDependency
  {
    SortFromKeepsOrder([], modules);
  }

  /** Along an ordered list dependency counts never decrease, so a module
      with fewer dependencies always comes before one with more. */
  lemma {:induction false} OrderedCountsAscend(s: seq<Module>, i: nat, j: nat)
    requires Ordered(s)
    requires i <= j < |s|
    ensures Count(s[i]) <= Count(s[j])
    decreases j - i
  {
    if i < j {
      OrderedCountsAscend(s, i + 1, j);
      assert Compare(s[i], s[i + 1]) == Ok(-1);
    }
  }

  /** If no two modules at different positions make the comparator throw,
      neither does the sort. */
  lemma {:induction false} SortSucceeds(modules: seq<Module>)
    requires forall i, j :: 0 <= i < j < |modules| ==> Compare(modules[i], modules[j]).Ok?
    ensures Sort(modules).Ok?
  {
    SortFromSucceeds([], modules);
  }

  lemma {:induction false} SortFromSucceeds(acc: seq<Module>, rest: seq<Module>)
    requires forall y, k :: y in acc && 0 <= k < |rest| ==> Compare(y, rest[k]).Ok?
    requires forall i, j :: 0 <= i < j < |rest| ==> Compare(rest[i], rest[j]).Ok?
    ensures SortFrom(acc, rest).Ok?
    decreases |rest|
  {
    if rest != [] {
      InsertSucceeds(acc, rest[0]);
      var t := Insert(acc, rest[0]).value;
      InsertElements(acc, rest[0]);
      forall y, k | y in t && 0 <= k < |rest[1..]|
        ensures Compare(y, rest[1..][k]).Ok?
      {
        assert rest[1..][k] == rest[k + 1];
        if y !in acc {
          assert y == rest[0];
        }
      }
      forall i, j | 0 <= i < j < |rest[1..]|
        ensures Compare(rest[1..][i], rest[1..][j]).Ok?
      {
        assert rest[1..][i] == rest[i + 1] && rest[1..][j] == rest[j + 1];
      }
      SortFromSucceeds(t, rest[1..]);
    }
  }

  lemma {:induction false} InsertSucceeds(sorted: seq<Module>, x: Module)
    requires forall y :: y in sorted ==> Compare(y, x).Ok?
    ensures Insert(sorted, x).Ok?
    decreases |sorted|
  {
    if sorted != [] {
      assert sorted[|sorted| - 1] in sorted;
      var init := sorted[..|sorted| - 1];
      assert forall y :: y in init ==> y in sorted;
      InsertSucceeds(init, x);
    }
  }

  lemma {:induction false} InsertElements(sorted: seq<Module>, x: Module)
    ensures Insert(sorted, x).Ok? ==>
              forall y :: y in Insert(sorted, x).value ==> y in sorted || y == x
    decreases |sorted|
  {
    if sorted != [] && Insert(sorted, x).Ok? {
      var init := sorted[..|sorted| - 1];
      InsertElements(init, x);
      assert forall y :: y in init ==> y in sorted;
    }
  }

  /** Two modules with equal counts that depend on each other make the sort
      fail, whichever of them comes first. */
  lemma MutualDependencyFails(a: Module, b: Module)
    requires Count(a) == Count(b) && DependsOn(a, b) && DependsOn(b, a)
    ensures Sort([a, b]) == Err(CircularDependency)
    ensures Sort([b, a]) == Err(CircularDependency)
  {
    assert [a, b][1..] == [b] && [b][1..] == [];
    assert [b, a][1..] == [a] && [a][1..] == [];
    assert Insert([], a) == Ok([a]) && Insert([], b) == Ok([b]);
    assert Insert([a], b) == Err(CircularDependency);
    assert Insert([b], a) == Err(CircularDependency);
    assert Sort([a, b]) == SortFrom([a], [b]) == Err(CircularDependency);
    assert Sort([b, a]) == SortFrom([b], [a]) == Err(CircularDependency);
  }

  /** Three modules with zero, one and two dependencies come out in that
      order, whatever order they come in. */
  lemma {:induction false} ThreeModulesByCount(modules: seq<Module>, x: Module, y: Module, z: Module)
    requires Count(x) == 0 && Count(y) == 1 && Count(z) == 2
    requires multiset(modules) == multiset([x, y, z])
    ensures Sort(modules) == Ok([x, y, z])
  {
    ThreeDistinct(modules, x, y, z);
    SortSucceeds(modules);
    SortIsOrderedPermutation(modules);
    var r := Sort(modules).value;
    ThreeDistinct(r, x, y, z);
    OrderedCountsAscend(r, 0, 1);
    OrderedCountsAscend(r, 1, 2);
    assert Count(r[0]) == 0 && Count(r[1]) == 1 && Count(r[2]) == 2;
    assert r == [r[0], r[1], r[2]];
  }

  /** A list holding exactly `x`, `y` and `z`, whose counts differ, has three
      elements with pairwise different counts. */
  lemma {:induction false} ThreeDistinct(m: seq<Module>, x: Module, y: Module, z: Module)
    requires Count(x) == 0 && Count(y) == 1 && Count(z) == 2
    requires multiset(m) == multiset([x, y, z])
    ensures |m| == 3
    ensures forall k :: 0 <= k < 3 ==> m[k] == x || m[k] == y || m[k] == z
    ensures forall i, j :: 0 <= i < j < |m| ==> Count(m[i]) != Count(m[j])
  {
    ThreeElements(m, x, y, z);
    OnceEach(x, y, z);
    forall i, j | 0 <= i < j < 3
      ensures Count(m[i]) != Count(m[j])
    {
      AtMostOnce(m, i, j, multiset([x, y, z]));
    }
  }

  lemma ThreeElements(m: seq<Module>, x: Module, y: Module, z: Module)
    requires multiset(m) == multiset([x, y, z])
    ensures |m| == 3
    ensures forall k :: 0 <= k < 3 ==> m[k] == x || m[k] == y || m[k] == z
  {
    assert |m| == 3 by {
      assert |multiset(m)| == |m|;
    }
    forall k | 0 <= k < 3
      ensures m[k] == x || m[k] == y || m[k] == z
    {
      assert m[k] in multiset(m);
    }
  }

  lemma OnceEach(x: Module, y: Module, z: Module)
    requires x != y && y != z && x != z
    ensures forall v :: v in multiset([x, y, z]) ==> multiset([x, y, z])[v] == 1
  {
  }

  /** In a list whose multiset holds every element at most once, different
      positions hold different elements. */
  lemma AtMostOnce(m: seq<Module>, i: nat, j: nat, b: multiset<Module>)
    requires i < j < |m| && multiset(m) == b
    requires forall v :: v in b ==> b[v] == 1
    ensures m[i] != m[j]
  {
    if m[i] == m[j] {
      OccursTwice(m, i, j);
    }
  }

  lemma OccursTwice(m: seq<Module>, i: nat, j: nat)
    requires i < j < |m| && m[i] == m[j]
    ensures multiset(m)[m[i]] >= 2
  {
    assert m == m[..j] + [m[j]] + m[j + 1..];
    assert m[i] in m[..j];
  }

  /** The comparator looks at dependency counts before dependencies: a
      module with fewer dependencies is placed before a module with more,
      even when it depends on that module. */
  lemma DependentPlacedFirst(c: Module, d: Module)
    requires Count(c) < Count(d) && DependsOn(c, d)
    ensures Sort([d, c]) == Ok([c, d]) && Sort([c, d]) == Ok([c, d])
  {
    assert [d, c][1..] == [c] && [c][1..] == [];
    assert [c, d][1..] == [d] && [d][1..] == [];
    assert Insert([], d) == Ok([d]) && Insert([], c) == Ok([c]);
    assert [c] + [d] == [c, d];
    assert Insert([d], c) == Append(Insert([], c), [d]) == Ok([c, d]);
    assert Insert([c], d) == Ok([c, d]);
    assert Sort([d, c]) == SortFrom([d], [c]) == Ok([c, d]);
    assert Sort([c, d]) == SortFrom([c], [d]) == Ok([c, d]);
  }

  /** Such a pair exists: `c` requires `d`, and `d` requires `e` and `f`. */
  lemma DependentPlacedFirstWitness()
    ensures var e := Module("e.js", "e", "e", "", false, []);
            var f := Module("f.js", "f", "f", "", false, []);
            var d := Module("d.js", "d", "d", "", false, [e, f]);
            var c := Module("c.js", "c", "c", "", true, [d]);
            Count(c) < Count(d) && DependsOn(c, d)
  {
  }

  /** No module depends on itself or on a module placed after it. */
  predicate DependencyFirst(s: seq<Module>)
  {
    forall i, j :: 0 <= i <= j < |s| ==> !DependsOn(s[i], s[j])
  }

  /** `m` depends on some module of `c`. */
  ghost predicate DependsOnSome(m: Module, c: set<Module>)
  {
    exists n :: n in c && DependsOn(m, n)
  }

  /** `c` is a non-empty group of the modules each of which depends on a
      module of the group. */
  ghost predicate Cycle(c: set<Module>, modules: seq<Module>)
  {
    c != {} && (forall m :: m in c ==> m in modules) && (forall m :: m in c ==> DependsOnSome(m, c))
  }

  /** Some non-empty group of the modules depends only on itself, so no
      member of it can come first. */
  ghost predicate HasCycle(modules: seq<Module>)
  {
    exists c: set<Module> :: Cycle(c, modules)
  }

  /** `m` depends on none of `rest`. */
  predicate Free(m: Module, rest: seq<Module>)
  {
    forall k :: 0 <= k < |rest| ==> !DependsOn(m, rest[k])
  }

  /** A dependency-first order: repeatedly takes the first remaining module
      that depends on no remaining module, and reports a cycle when there is
      none. */
  method SortTopologically(modules: seq<Module>) returns (r: Result<seq<Module>>)
    ensures r.Ok? ==> multiset(r.value) == multiset(modules) && DependencyFirst(r.value)
    ensures r.Err? ==> r.error == CircularDependency
    ensures r.Err? <==> HasCycle(modules)
  {
    var remaining := modules;
    var sorted: seq<Module> := [];
    while remaining != []
      invariant multiset(sorted) + multiset(remaining) == multiset(modules)
      invariant DependencyFirst(sorted)
      invariant forall i, k :: 0 <= i < |sorted| && 0 <= k < |remaining| ==> !DependsOn(sorted[i], remaining[k])
      decreases |remaining|
    {
      var k := 0;
      while k < |remaining| && !Free(remaining[k], remaining)
        invariant 0 <= k <= |remaining|
        invariant forall p {:trigger Free(remaining[p], remaining)} :: 0 <= p < k ==> !Free(remaining[p], remaining)
      {
        k := k + 1;
      }
      if k == |remaining| {
        CycleWitness(remaining, sorted, modules);
        return Err(CircularDependency);
      }
      TakeFree(sorted, remaining, k, modules);
      sorted := sorted + [remaining[k]];
      remaining := remaining[..k] + remaining[k + 1..];
    }
    NoCycle(sorted, modules);
    return Ok(sorted);
  }

  /** Moving a free module from the remaining ones to the end of the order
      keeps the loop's invariants. */
  lemma TakeFree(sorted: seq<Module>, remaining: seq<Module>, k: nat, modules: seq<Module>)
    requires k < |remaining| && Free(remaining[k], remaining)
    requires multiset(sorted) + multiset(remaining) == multiset(modules)
    requires DependencyFirst(sorted)
    requires forall i, q :: 0 <= i < |sorted| && 0 <= q < |remaining| ==> !DependsOn(sorted[i], remaining[q])
    ensures var s := sorted + [remaining[k]];
            var rest := remaining[..k] + remaining[k + 1..];
            multiset(s) + multiset(rest) == multiset(modules)
            && DependencyFirst(s)
            && forall i, q :: 0 <= i < |s| && 0 <= q < |rest| ==> !DependsOn(s[i], rest[q])
  {
    var m := remaining[k];
    var s := sorted + [m];
    var rest := remaining[..k] + remaining[k + 1..];
    assert remaining == remaining[..k] + [m] + remaining[k + 1..];
    assert forall q :: 0 <= q < |rest| ==> rest[q] in remaining;
    forall i, j | 0 <= i <= j < |s|
      ensures !DependsOn(s[i], s[j])
    {
      if j == |s| - 1 {
        if i < |sorted| {
          assert !DependsOn(sorted[i], remaining[k]);
        }
      } else {
        assert s[i] == sorted[i] && s[j] == sorted[j];
      }
    }
    forall i, q | 0 <= i < |s| && 0 <= q < |rest|
      ensures !DependsOn(s[i], rest[q])
    {
      var p :| 0 <= p < |remaining| && remaining[p] == rest[q];
      if i < |sorted| {
        assert !DependsOn(sorted[i], remaining[p]);
      }
    }
  }

  /** When no remaining module is free, the remaining modules form a cycle. */
  lemma CycleWitness(remaining: seq<Module>, sorted: seq<Module>, modules: seq<Module>)
    requires remaining != []
    requires forall p {:trigger Free(remaining[p], remaining)} :: 0 <= p < |remaining| ==> !Free(remaining[p], remaining)
    requires multiset(sorted) + multiset(remaining) == multiset(modules)
    ensures HasCycle(modules)
  {
    var c := set m | m in remaining;
    assert remaining[0] in c;
    forall m | m in c
      ensures m in modules
    {
      RemainingInModules(remaining, sorted, modules, m);
    }
    RemainingClosed(remaining, c);
    assert Cycle(c, modules);
  }

  lemma RemainingClosed(remaining: seq<Module>, c: set<Module>)
    requires forall p {:trigger Free(remaining[p], remaining)} :: 0 <= p < |remaining| ==> !Free(remaining[p], remaining)
    requires c == set m | m in remaining
    ensures forall m :: m in c ==> DependsOnSome(m, c)
  {
    forall m | m in c
      ensures DependsOnSome(m, c)
    {
      var p :| 0 <= p < |remaining| && remaining[p] == m;
      assert !Free(remaining[p], remaining);
      var k :| 0 <= k < |remaining| && DependsOn(m, remaining[k]);
      assert remaining[k] in c;
    }
  }

  lemma RemainingInModules(remaining: seq<Module>, sorted: seq<Module>, modules: seq<Module>, m: Module)
    requires multiset(sorted) + multiset(remaining) == multiset(modules)
    requires m in remaining
    ensures m in modules
  {
    assert multiset(remaining)[m] > 0;
    assert multiset(modules)[m] > 0;
  }

  /** A dependency-first order of the modules rules out every cycle. */
  lemma NoCycle(sorted: seq<Module>, modules: seq<Module>)
    requires DependencyFirst(sorted) && multiset(sorted) == multiset(modules)
    ensures !HasCycle(modules)
  {
    if HasCycle(modules) {
      var c: set<Module> :| Cycle(c, modules);
      forall m | m in c
        ensures m in sorted
      {
        assert m in multiset(modules);
      }
      var first := FirstInSet(sorted, c);
      assert false;
    }
  }

  /** In a dependency-first order, the first member of a group depends on
      no member of the group. */
  lemma {:induction false} FirstInSet(s: seq<Module>, c: set<Module>) returns (m: Module)
    requires DependencyFirst(s)
    requires c != {} && forall n :: n in c ==> n in s
    ensures m in c && forall n :: n in c ==> !DependsOn(m, n)
  {
    var n0 :| n0 in c;
    assert s != [];
    if s[0] in c {
      m := s[0];
      forall n | n in c
        ensures !DependsOn(m, n)
      {
        var j :| 0 <= j < |s| && s[j] == n;
      }
    } else {
      forall n | n in c
        ensures n in s[1..]
      {
        var j :| 0 <= j < |s| && s[j] == n;
        assert j != 0;
        assert s[1..][j - 1] == n;
      }
      assert DependencyFirst(s[1..]) by {
        forall i, j | 0 <= i <= j < |s[1..]|
          ensures !DependsOn(s[1..][i], s[1..][j])
        {
          assert s[1..][i] == s[i + 1] && s[1..][j] == s[j + 1];
        }
      }
      m := FirstInSet(s[1..], c);
    }
  }
}

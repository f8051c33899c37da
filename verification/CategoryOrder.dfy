/** The parents named by the categories of one push: which categories lie on a cycle, and an
    order in which parents come before their children. */
module CategoryOrder {
  import opened Wrappers

  /** Category name to the name of its parent, empty for a root. */
  type Parents = map<string, string>

  /** The parent to go on to, if the category is in the push and names one. */
  function Next(parents: Parents, name: string): Option<string> {
    if name in parents && parents[name] != "" then Some(parents[name]) else None
  }

  /** Where so many steps up lead. */
  function Up(parents: Parents, name: string, steps: nat): Option<string>
    decreases steps
  {
    if steps == 0 then Some(name)
    else match Next(parents, name) case None => None case Some(parent) => Up(parents, parent, steps - 1)
  }

  ghost predicate OnCycle(parents: Parents, name: string) {
    exists k: nat :: k > 0 && Up(parents, name, k) == Some(name)
  }

  lemma {:induction false} UpUp(parents: Parents, name: string, a: nat, b: nat)
    requires Up(parents, name, a).Some?
    ensures Up(parents, name, a + b) == Up(parents, Up(parents, name, a).value, b)
    decreases a
  {
    if a > 0 {
      UpUp(parents, Next(parents, name).value, a - 1, b);
    }
  }

  /** The parent of a category on a cycle is on it too. */
  lemma CycleGoesOn(parents: Parents, name: string)
    requires OnCycle(parents, name)
    ensures Next(parents, name).Some? && OnCycle(parents, Next(parents, name).value)
  {
    var k: nat :| k > 0 && Up(parents, name, k) == Some(name);
    var parent := Next(parents, name).value;
    UpUp(parents, parent, k - 1, 1);
    assert Up(parents, name, 1) == Some(parent) by {
      assert Up(parents, parent, 0) == Some(parent);
    }
    assert Up(parents, parent, k) == Some(parent);
  }

  /** Each category on the list is the child of the one after it. */
  ghost predicate Chain(parents: Parents, s: seq<string>) {
    forall i :: 0 <= i < |s| - 1 ==> Next(parents, s[i]) == Some(s[i + 1])
  }

  lemma {:induction false} ChainUp(parents: Parents, s: seq<string>, i: nat, j: nat)
    requires Chain(parents, s) && i <= j < |s|
    ensures Up(parents, s[i], j - i) == Some(s[j])
    decreases j - i
  {
    if i < j {
      ChainUp(parents, s, i + 1, j);
    }
  }

  /** A chain that comes back to one of its members makes a cycle from there on. */
  lemma ChainCloses(parents: Parents, s: seq<string>, i: nat, j: nat)
    requires Chain(parents, s) && i <= j < |s| && Next(parents, s[|s| - 1]) == Some(s[i])
    ensures OnCycle(parents, s[j])
  {
    var n := |s| - 1;
    ChainUp(parents, s, j, n);
    ChainUp(parents, s, i, j);
    UpUp(parents, s[j], n - j, 1 + j - i);
    assert Up(parents, s[n], 1 + j - i) == Up(parents, s[i], j - i);
    assert Up(parents, s[j], (n - j) + (1 + j - i)) == Some(s[j]);
  }

  /** A set closed under going up holds every category reached from its members. */
  lemma {:induction false} ClosedHolds(parents: Parents, marked: set<string>, name: string, k: nat)
    requires Closed(parents, marked) && name in marked && Up(parents, name, k).Some?
    ensures Up(parents, name, k).value in marked
    decreases k
  {
    if k > 0 {
      ClosedHolds(parents, marked, Next(parents, name).value, k - 1);
    }
  }

  ghost predicate Closed(parents: Parents, marked: set<string>) {
    forall n <- marked :: Next(parents, n).Some? ==> Next(parents, n).value in marked
  }

  /** Once the parent of a category on a cycle is marked, so is the category. */
  lemma MarkedComesRound(parents: Parents, marked: set<string>, name: string)
    requires Closed(parents, marked) && OnCycle(parents, name) && Next(parents, name).Some? && Next(parents, name).value in marked
    ensures name in marked
  {
    var k: nat :| k > 0 && Up(parents, name, k) == Some(name);
    ClosedHolds(parents, marked, Next(parents, name).value, k - 1);
  }

  /** Names in a ring, each with the next one as its parent. */
  ghost predicate Ring(parents: Parents, ring: seq<string>) {
    && ring != [] && ChildOf(parents, ring[|ring| - 1], ring[0])
    && forall i :: 0 <= i < |ring| - 1 ==> ChildOf(parents, ring[i], ring[i + 1])
  }

  predicate ChildOf(parents: Parents, name: string, parent: string) {
    name in parents && parents[name] == parent && parent != ""
  }

  lemma {:induction false} TrailOf(parents: Parents, name: string, k: nat) returns (trail: seq<string>)
    requires Up(parents, name, k).Some?
    ensures |trail| == k + 1 && trail[0] == name && trail[k] == Up(parents, name, k).value && Chain(parents, trail)
    decreases k
  {
    if k == 0 {
      trail := [name];
    } else {
      var rest := TrailOf(parents, Next(parents, name).value, k - 1);
      trail := [name] + rest;
    }
  }

  /** A category is on a cycle exactly when it is in a ring of categories of the push. */
  lemma OnCycleExactly(parents: Parents, name: string)
    ensures OnCycle(parents, name) <==> exists ring :: Ring(parents, ring) && name in ring
  {
    if OnCycle(parents, name) {
      var k: nat :| k > 0 && Up(parents, name, k) == Some(name);
      var trail := TrailOf(parents, name, k);
      var ring := trail[..k];
      forall i | 0 <= i < k ensures ChildOf(parents, trail[i], trail[i + 1]) {
        assert Next(parents, trail[i]) == Some(trail[i + 1]);
      }
      assert Ring(parents, ring) && ring[0] == name;
    }
    if ring :| Ring(parents, ring) && name in ring {
      var j :| 0 <= j < |ring| && ring[j] == name;
      forall i | 0 <= i < |ring| - 1 ensures Next(parents, ring[i]) == Some(ring[i + 1]) {
        assert ChildOf(parents, ring[i], ring[i + 1]);
      }
      ChainCloses(parents, ring, 0, j);
    }
  }

  // ---------------------------------------------------------------- cycles

  class CycleFinder {
    const parents: Parents
    var inCycle: set<string>
    var gray: set<string>
    var black: set<string>
    var stack: seq<string>

    constructor (parents: Parents)
      ensures this.parents == parents && Valid() && stack == [] && black == {}
    {
      this.parents := parents;
      inCycle, gray, black, stack := {}, {}, {}, [];
    }

    ghost predicate Valid()
      reads this
    {
      && Chain(parents, stack)
      && gray == (set n | n in stack) && gray !! black
      && (forall n <- inCycle :: OnCycle(parents, n))
      && Closed(parents, inCycle)
      && (forall n <- black :: OnCycle(parents, n) ==> n in inCycle)
      && (forall n <- stack :: n in parents)
    }

    /** Depth-first: a gray category met again closes a cycle over the stack from it on. */
    method Visit(name: string)
      requires Valid() && (stack != [] ==> Next(parents, stack[|stack| - 1]) == Some(name))
      modifies this
      ensures Valid() && stack == old(stack) && old(black) <= black
      ensures name in black || name in stack
      ensures OnCycle(parents, name) ==> name in inCycle
      decreases parents.Keys - gray - black
    {
      if name in black {
        return;
      }
      if name in gray {
        MarkFrom(name);
        return;
      }
      if name !in parents || parents[name] == "" {
        black := black + {name};
        if OnCycle(parents, name) {
          CycleGoesOn(parents, name);
        }
        return;
      }
      gray := gray + {name};
      stack := stack + [name];
      assert name in parents.Keys - old(gray) - old(black) && name !in parents.Keys - gray - black;
      Visit(parents[name]);
      stack := stack[..|stack| - 1];
      gray := gray - {name};
      black := black + {name};
      assert stack == old(stack);
      if OnCycle(parents, name) {
        CycleGoesOn(parents, name);
        MarkedComesRound(parents, inCycle, name);
      }
    }

    method MarkFrom(name: string)
      requires Valid() && name in stack && Next(parents, stack[|stack| - 1]) == Some(name)
      modifies this`inCycle
      ensures Valid() && name in inCycle && old(inCycle) <= inCycle
    {
      for i := 0 to |stack|
        invariant inCycle == old(inCycle) && forall j :: 0 <= j < i ==> stack[j] != name
      {
        if stack[i] == name {
          forall j | i <= j < |stack| ensures OnCycle(parents, stack[j]) {
            ChainCloses(parents, stack, i, j);
          }
          inCycle := inCycle + set n | n in stack[i..];
          assert stack[i] in stack[i..];
          forall n | n in stack[i..] ensures Next(parents, n).value in inCycle {
            var j :| i <= j < |stack| && stack[j] == n;
            assert j + 1 < |stack| ==> stack[j + 1] in stack[i..];
          }
          break;
        }
      }
    }

    /** Every category is visited, in any order. */
    method Run()
      requires Valid() && stack == [] && black == {}
      modifies this
      ensures forall n :: n in inCycle <==> OnCycle(parents, n)
    {
      var todo := parents.Keys;
      while todo != {}
        invariant Valid() && stack == [] && forall n <- parents :: n in todo || n in black
      {
        var name :| name in todo;
        Visit(name);
        todo := todo - {name};
      }
      forall n | OnCycle(parents, n) ensures n in inCycle {
        CycleGoesOn(parents, n);
        assert n in parents;
      }
    }
  }

  /** DetectCycles: exactly the categories that lie on a cycle. */
  method DetectCycles(parents: Parents) returns (inCycle: set<string>)
    ensures forall n :: n in inCycle <==> OnCycle(parents, n)
  {
    var finder := new CycleFinder(parents);
    finder.Run();
    inCycle := finder.inCycle;
  }

  // ---------------------------------------------------------------- order

  /** Parents before children: a category off every cycle comes after its parent, if that is
      in the push. */
  ghost predicate ParentsFirst(parents: Parents, cycle: set<string>, order: seq<string>) {
    forall j :: 0 <= j < |order| && order[j] !in cycle && order[j] in parents && parents[order[j]] != "" && parents[order[j]] in parents
      ==> parents[order[j]] in order[..j]
  }

  ghost predicate Distinct(order: seq<string>) {
    forall i, j :: 0 <= i < j < |order| ==> order[i] != order[j]
  }

  ghost predicate Exact(parents: Parents, cycle: set<string>) {
    forall n :: n in cycle <==> OnCycle(parents, n)
  }

  /** What is known between visits: the visited categories are in the order or pending, and
      the pending ones, each the child of the next, are off the cycles. */
  ghost predicate Sorting(parents: Parents, cycle: set<string>, visited: set<string>, order: seq<string>, pending: seq<string>) {
    && Chain(parents, pending) && (forall n <- pending :: n !in cycle && n in visited && n !in order)
    && (forall n <- visited :: n in parents && (n in order || n in pending))
    && (forall n <- order :: n in visited)
    && Distinct(order) && ParentsFirst(parents, cycle, order) && Distinct(pending)
  }

  lemma Begin(parents: Parents, cycle: set<string>, visited: set<string>, order: seq<string>, pending: seq<string>, name: string)
    requires Sorting(parents, cycle, visited, order, pending) && name in parents && name !in visited && name !in cycle
    requires pending != [] ==> Next(parents, pending[|pending| - 1]) == Some(name)
    ensures Sorting(parents, cycle, visited + {name}, order, pending + [name])
  {
  }

  lemma Finish(parents: Parents, cycle: set<string>, visited: set<string>, order: seq<string>, pending: seq<string>, name: string)
    requires Sorting(parents, cycle, visited, order, pending + [name])
    requires name in parents && (parents[name] != "" && parents[name] in parents ==> parents[name] in order)
    ensures Sorting(parents, cycle, visited, order + [name], pending)
  {
    var all := pending + [name];
    assert all[|pending|] == name;
    AppendKeeps(parents, cycle, order, name);
    forall i | 0 <= i < |pending| - 1 ensures Next(parents, pending[i]) == Some(pending[i + 1]) {
      assert all[i] == pending[i] && all[i + 1] == pending[i + 1];
    }
    forall i, j | 0 <= i < j < |pending| ensures pending[i] != pending[j] {
      assert all[i] == pending[i] && all[j] == pending[j];
    }
    forall n | n in pending ensures n !in cycle && n in visited && n !in order + [name] {
      var i :| 0 <= i < |pending| && pending[i] == n;
      assert all[i] == n && n in all;
    }
  }

  /** A category whose child is the last of the pending ones is not itself pending. */
  lemma NotPending(parents: Parents, cycle: set<string>, visited: set<string>, order: seq<string>, pending: seq<string>, name: string)
    requires Exact(parents, cycle) && Sorting(parents, cycle, visited, order, pending)
    requires pending != [] ==> Next(parents, pending[|pending| - 1]) == Some(name)
    ensures name !in pending
  {
    if name in pending {
      var i :| 0 <= i < |pending| && pending[i] == name;
      ChainCloses(parents, pending, i, i);
    }
  }

  class Sorter {
    const parents: Parents
    const cycle: set<string>
    var visited: set<string>
    var order: seq<string>
    /** The categories whose visit is under way, each the child of the next. */
    ghost var pending: seq<string>

    constructor (parents: Parents, cycle: set<string>)
      requires forall n :: n in cycle <==> OnCycle(parents, n)
      ensures this.parents == parents && this.cycle == cycle && Valid() && pending == [] && visited == {}
    {
      this.parents, this.cycle := parents, cycle;
      visited, order, pending := {}, [], [];
    }

    ghost predicate Valid()
      reads this
    {
      Exact(parents, cycle) && Sorting(parents, cycle, visited, order, pending)
    }

    method Append(name: string)
      requires Valid() && name in parents && name !in visited
      requires name !in cycle && parents[name] != "" && parents[name] in parents ==> parents[name] in order
      modifies this
      ensures Valid() && order == old(order) + [name] && visited == old(visited) + {name} && pending == old(pending)
    {
      AppendKeeps(parents, cycle, order, name);
      order := order + [name];
      visited := visited + {name};
    }

    method PutCycleMember(name: string)
      requires Valid() && name in parents
      modifies this
      ensures Valid() && pending == old(pending) && old(visited) <= visited && (forall n <- old(order) :: n in order)
      ensures name in cycle ==> name in order
    {
      if name in cycle && name !in visited {
        Append(name);
      }
    }

    /** A parent on a cycle is put down first; any other is visited first. */
    method Visit(name: string)
      requires Valid() && name in parents && (pending != [] ==> Next(parents, pending[|pending| - 1]) == Some(name))
      modifies this
      ensures Valid() && pending == old(pending) && old(visited) <= visited && (forall n <- old(order) :: n in order)
      ensures name in cycle || name in order
      decreases parents.Keys - visited
    {
      if name in visited || name in cycle {
        NotPending(parents, cycle, visited, order, pending, name);
        return;
      }
      Begin(parents, cycle, visited, order, pending, name);
      visited := visited + {name};
      pending := pending + [name];
      var parent := parents[name];
      if parent != "" && parent in parents {
        PutCycleMember(parent);
        assert name in parents.Keys - old(visited) && name !in parents.Keys - visited;
        Visit(parent);
        NotPending(parents, cycle, visited, order, pending, parent);
      }
      Finish(parents, cycle, visited, order, old(pending), name);
      pending := pending[..|pending| - 1];
      order := order + [name];
    }

    /** Every category is visited, in any order; then the cycle members left over are added. */
    method Run()
      requires Valid() && pending == [] && visited == {}
      modifies this
      ensures Distinct(order) && ParentsFirst(parents, cycle, order) && forall n :: n in order <==> n in parents
    {
      var todo := parents.Keys;
      while todo != {}
        invariant Valid() && pending == [] && todo <= parents.Keys && forall n <- parents :: n in todo || n in cycle || n in order
      {
        var name :| name in todo;
        Visit(name);
        todo := todo - {name};
      }
      todo := parents.Keys;
      while todo != {}
        invariant Valid() && pending == [] && todo <= parents.Keys
        invariant forall n <- parents :: n in order || (n in todo && n in cycle)
      {
        var name :| name in todo;
        PutCycleMember(name);
        todo := todo - {name};
      }
    }
  }

  lemma AppendKeeps(parents: Parents, cycle: set<string>, order: seq<string>, name: string)
    requires Distinct(order) && ParentsFirst(parents, cycle, order) && name !in order && name in parents
    requires name !in cycle && parents[name] != "" && parents[name] in parents ==> parents[name] in order
    ensures Distinct(order + [name]) && ParentsFirst(parents, cycle, order + [name])
  {
    var more := order + [name];
    forall j | 0 <= j < |more| ensures more[..j] == order[..j] {
    }
    assert order[..|order|] == order;
  }

  /** DetectCycles, then TopoSortCategories: every category of the push exactly once, and each
      one off the cycles after its parent. */
  method SortCategories(parents: Parents) returns (order: seq<string>, inCycle: set<string>)
    ensures forall n :: n in inCycle <==> OnCycle(parents, n)
    ensures Distinct(order) && (forall n :: n in order <==> n in parents) && ParentsFirst(parents, inCycle, order)
  {
    inCycle := DetectCycles(parents);
    var sorter := new Sorter(parents, inCycle);
    sorter.Run();
    order := sorter.order;
  }
}

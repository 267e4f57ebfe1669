/**
The process tree of the Processes tab: sortProcSlice and computeProcsTree of internal/ui/model.go.

`Listing` is the forest's preorder as a value. The class walks it the way the code does, with a cap and a
set of visited PIDs; the lemmas say what the listing means without mentioning the walk.
*/
module ProcTree {
  import opened Strings

  // The fields the listing looks at. `name` is the process name in lower case.
  datatype Proc = Proc(pid: nat, ppid: nat, mem: real, cpu: real, ioRead: real, ioWrite: real, name: string)

  datatype SortMode = ByMem | ByIO | ByName | ByPID | ByCPU

  // ----- the order of siblings -----

  // The comparison handed to the sort: the mode's key, then the PID.
  predicate Before(mode: SortMode, a: Proc, b: Proc) {
    match mode
    case ByMem => if a.mem != b.mem then a.mem > b.mem else a.pid < b.pid
    case ByIO =>
      var ai, bi := a.ioRead + a.ioWrite, b.ioRead + b.ioWrite;
      if ai != bi then ai > bi else a.pid < b.pid
    case ByName => if a.name != b.name then StringLess(a.name, b.name) else a.pid < b.pid
    case ByPID => a.pid < b.pid
    case ByCPU => if a.cpu != b.cpu then a.cpu > b.cpu else a.pid < b.pid
  }

  // In every mode, processes with different PIDs are strictly ordered one way and only one way.
  lemma BeforeTotal(mode: SortMode, a: Proc, b: Proc)
    ensures a.pid != b.pid ==> (Before(mode, a, b) <==> !Before(mode, b, a))
    ensures !Before(mode, a, a)
  {
    StringLessTotal(a.name, b.name);
  }

  lemma BeforeTransitive(mode: SortMode, a: Proc, b: Proc, c: Proc)
    requires Before(mode, a, b) && Before(mode, b, c)
    ensures Before(mode, a, c)
  {
    if mode == ByName && a.name != b.name && b.name != c.name {
      StringLessTransitive(a.name, b.name, c.name);
      StringLessTotal(a.name, c.name);
    }
  }

  ghost predicate Distinct(procs: set<Proc>) {
    forall p, q :: p in procs && q in procs && p.pid == q.pid ==> p == q
  }

  ghost predicate Ascending(mode: SortMode, s: seq<Proc>) {
    forall i, j :: 0 <= i < j < |s| ==> Before(mode, s[i], s[j])
  }

  ghost predicate Lists(s: seq<Proc>, procs: set<Proc>) {
    (forall i, j :: 0 <= i < j < |s| ==> s[i] != s[j]) && (forall p :: p in s <==> p in procs)
  }

  ghost predicate IsSorting(mode: SortMode, s: seq<Proc>, procs: set<Proc>) {
    Ascending(mode, s) && Lists(s, procs)
  }

  // There is only one way to put a set of processes in order.
  lemma {:induction false} SortingIsUnique(mode: SortMode, s: seq<Proc>, t: seq<Proc>, procs: set<Proc>)
    requires IsSorting(mode, s, procs) && IsSorting(mode, t, procs)
    ensures s == t
    decreases |s|
  {
    assert t != [] ==> t[0] in procs;
    if s != [] {
      assert s[0] in t && t != [] && t[0] in s;
      BeforeTotal(mode, s[0], s[0]);
      if s[0] != t[0] {
        BeforeTransitive(mode, s[0], t[0], s[0]);
        assert false;
      }
      assert forall p :: p in s[1..] <==> p in procs && p != s[0];
      assert forall p :: p in t[1..] <==> p in procs && p != s[0];
      SortingIsUnique(mode, s[1..], t[1..], procs - {s[0]});
    }
  }

  function Insert(mode: SortMode, p: Proc, s: seq<Proc>): (r: seq<Proc>)
    ensures multiset(r) == multiset(s) + multiset{p}
  {
    if s == [] || Before(mode, p, s[0]) then [p] + s
    else
      assert s == [s[0]] + s[1..];
      [s[0]] + Insert(mode, p, s[1..])
  }

  // sort.SliceStable with the comparison above.
  function SliceStable(mode: SortMode, s: seq<Proc>): (r: seq<Proc>)
    ensures multiset(r) == multiset(s)
  {
    if s == [] then []
    else
      assert s == s[..|s| - 1] + [s[|s| - 1]];
      Insert(mode, s[|s| - 1], SliceStable(mode, s[..|s| - 1]))
  }

  lemma {:induction false} InsertAscends(mode: SortMode, p: Proc, s: seq<Proc>)
    requires Ascending(mode, s) && forall q :: q in s ==> q.pid != p.pid
    ensures Ascending(mode, Insert(mode, p, s))
    decreases |s|
  {
    if s != [] {
      BeforeTotal(mode, p, s[0]);
      if Before(mode, p, s[0]) {
        forall j | 0 < j < |s| ensures Before(mode, p, s[j]) {
          BeforeTransitive(mode, p, s[0], s[j]);
        }
      } else {
        InsertAscends(mode, p, s[1..]);
        var t := Insert(mode, p, s[1..]);
        forall j | 0 <= j < |t| ensures Before(mode, s[0], t[j]) {
          assert t[j] in multiset(t);
          assert t[j] == p || t[j] in s[1..];
        }
      }
    }
  }

  lemma InsertSorts(mode: SortMode, p: Proc, s: seq<Proc>, procs: set<Proc>)
    requires Distinct(procs + {p}) && p !in procs && IsSorting(mode, s, procs)
    ensures IsSorting(mode, Insert(mode, p, s), procs + {p})
  {
    var t := Insert(mode, p, s);
    InsertAscends(mode, p, s);
    forall q ensures q in t <==> q in procs + {p} {
      assert q in t <==> q in multiset(t);
    }
    forall i, j | 0 <= i < j < |t| ensures t[i] != t[j] {
      BeforeTotal(mode, t[i], t[i]);
    }
  }

  // Whatever order the processes arrive in, and whether or not the sort is stable, they leave in one order.
  lemma {:induction false} SliceStableSorts(mode: SortMode, s: seq<Proc>, procs: set<Proc>)
    requires Distinct(procs) && Lists(s, procs)
    ensures IsSorting(mode, SliceStable(mode, s), procs)
    decreases |s|
  {
    if s != [] {
      var last := s[|s| - 1];
      assert last in s;
      assert forall p :: p in s[..|s| - 1] <==> p in procs && p != last;
      SliceStableSorts(mode, s[..|s| - 1], procs - {last});
      InsertSorts(mode, last, SliceStable(mode, s[..|s| - 1]), procs - {last});
      assert procs - {last} + {last} == procs;
    }
  }

  // The processes of a set in order.
  ghost function Sorted(mode: SortMode, procs: set<Proc>): (s: seq<Proc>)
    requires Distinct(procs)
    ensures IsSorting(mode, s, procs)
  {
    SortingExists(mode, procs);
    var s :| IsSorting(mode, s, procs);
    s
  }

  lemma {:induction false} SortingExists(mode: SortMode, procs: set<Proc>)
    requires Distinct(procs)
    ensures exists s :: IsSorting(mode, s, procs)
  {
    if procs == {} {
      assert IsSorting(mode, [], procs);
    } else {
      var p :| p in procs;
      SortingExists(mode, procs - {p});
      var s :| IsSorting(mode, s, procs - {p});
      InsertSorts(mode, p, s, procs - {p});
      assert procs - {p} + {p} == procs;
    }
  }

  // ----- the forest -----

  datatype Row = Row(proc: Proc, depth: nat, prefix: string)

  ghost predicate IsRoot(all: set<Proc>, p: Proc) {
    p.ppid == p.pid || forall q :: q in all ==> q.pid != p.ppid
  }

  ghost function Roots(all: set<Proc>): set<Proc> {
    set p | p in all && IsRoot(all, p)
  }

  ghost function Kids(procs: set<Proc>, pid: nat): set<Proc> {
    set k | k in procs && k.ppid == pid && k.pid != k.ppid
  }

  ghost function ParentOf(all: set<Proc>, p: Proc): (q: Proc)
    requires !IsRoot(all, p)
    ensures q in all && q.pid == p.ppid
  {
    var q :| q in all && q.pid == p.ppid;
    q
  }

  // p's PPID chain reaches a root in n steps.
  ghost predicate AtDepth(all: set<Proc>, p: Proc, n: nat)
    decreases n
  {
    p in all && if n == 0 then IsRoot(all, p) else !IsRoot(all, p) && AtDepth(all, ParentOf(all, p), n - 1)
  }

  ghost predicate ReachesRoot(all: set<Proc>, p: Proc) {
    exists n: nat :: AtDepth(all, p, n)
  }

  // The process k steps up the chain.
  ghost function Ancestor(all: set<Proc>, p: Proc, n: nat, k: nat): (a: Proc)
    requires AtDepth(all, p, n) && k <= n
    ensures AtDepth(all, a, n - k)
    decreases k
  {
    if k == 0 then p else Ancestor(all, ParentOf(all, p), n - 1, k - 1)
  }

  lemma {:induction false} DepthIsUnique(all: set<Proc>, p: Proc, m: nat, n: nat)
    requires AtDepth(all, p, m) && AtDepth(all, p, n)
    ensures m == n
    decreases m
  {
    if m > 0 && n > 0 {
      DepthIsUnique(all, ParentOf(all, p), m - 1, n - 1);
    }
  }

  lemma {:induction false} AncestorStep(all: set<Proc>, p: Proc, n: nat, k: nat)
    requires AtDepth(all, p, n) && k < n
    ensures Ancestor(all, p, n, k + 1) == ParentOf(all, Ancestor(all, p, n, k))
    decreases k
  {
    if k > 0 {
      AncestorStep(all, ParentOf(all, p), n - 1, k - 1);
    }
  }

  // No sibling comes after p.
  ghost predicate IsLast(mode: SortMode, all: set<Proc>, p: Proc) {
    forall k :: k in Kids(all, p.ppid) ==> k == p || Before(mode, k, p)
  }

  // What stands before the children of p: a bar under every ancestor, p included, that has a later sibling.
  ghost function Indent(mode: SortMode, all: set<Proc>, p: Proc, n: nat): (s: string)
    requires AtDepth(all, p, n)
    ensures |s| == 3 * n
    decreases n
  {
    if n == 0 then "" else Indent(mode, all, ParentOf(all, p), n - 1) + (if IsLast(mode, all, p) then "   " else BAR)
  }

  // The branch drawn before p: an elbow on the last sibling, a tee on the others.
  ghost function Branch(mode: SortMode, all: set<Proc>, p: Proc, n: nat): (s: string)
    requires AtDepth(all, p, n)
    ensures |s| == 3 * n
  {
    if n == 0 then "" else Indent(mode, all, ParentOf(all, p), n - 1) + (if IsLast(mode, all, p) then ELBOW else TEE)
  }

  const BAR: string := "\U{2502}  "
  const ELBOW: string := "\U{2514}\U{2500} "
  const TEE: string := "\U{251C}\U{2500} "

  // ----- its preorder -----

  function ChildIndent(indent: string, last: bool, depth: nat): string {
    if depth == 0 then "" else indent + (if last then "   " else BAR)
  }

  function Prefix(indent: string, last: bool, depth: nat): string {
    if depth == 0 then "" else indent + (if last then ELBOW else TEE)
  }

  ghost function TreeRows(mode: SortMode, procs: set<Proc>, p: Proc, depth: nat, indent: string, last: bool): seq<Row>
    requires Distinct(procs) && p in procs
    decreases |procs|, 0
  {
    var kids := Sorted(mode, Kids(procs - {p}, p.pid));
    [Row(p, depth, Prefix(indent, last, depth))]
    + ForestRows(mode, procs - {p}, kids, depth + 1, ChildIndent(indent, last, depth))
  }

  ghost function ForestRows(mode: SortMode, procs: set<Proc>, ps: seq<Proc>, depth: nat, indent: string): seq<Row>
    requires Distinct(procs) && forall p :: p in ps ==> p in procs
    decreases |procs|, 1 + |ps|
  {
    if ps == [] then []
    else TreeRows(mode, procs, ps[0], depth, indent, |ps| == 1) + ForestRows(mode, procs, ps[1..], depth, indent)
  }

  ghost function Listing(mode: SortMode, all: set<Proc>): seq<Row>
    requires Distinct(all)
  {
    ForestRows(mode, all, Sorted(mode, Roots(all)), 0, "")
  }

  // What is left of `all` below depth d: only shallower processes have been taken away.
  ghost predicate Remaining(all: set<Proc>, procs: set<Proc>, d: nat) {
    && Distinct(all) && procs <= all
    && forall q, n: nat :: q in all - procs && AtDepth(all, q, n) ==> n < d
  }

  // Taking p away leaves all its children.
  lemma KidsRemain(all: set<Proc>, procs: set<Proc>, p: Proc, d: nat)
    requires Remaining(all, procs, d) && p in procs && AtDepth(all, p, d)
    ensures Remaining(all, procs - {p}, d + 1)
    ensures Kids(procs - {p}, p.pid) == Kids(all, p.pid)
    ensures forall k :: k in Kids(all, p.pid) ==> AtDepth(all, k, d + 1) && ParentOf(all, k) == p
  {
    forall q, n: nat | q in all - (procs - {p}) && AtDepth(all, q, n) ensures n < d + 1 {
      if q == p {
        DepthIsUnique(all, p, n, d);
      }
    }
    forall k | k in Kids(all, p.pid) ensures AtDepth(all, k, d + 1) && ParentOf(all, k) == p && k in procs - {p} {
      assert p in all && p.pid == k.ppid && !IsRoot(all, k);
      assert ParentOf(all, k) == p;
      assert AtDepth(all, k, d + 1);
      if k !in procs {
        assert false;
      }
    }
  }

  // q is at the given depth, and above it at depth d is one of ps.
  ghost predicate Under(all: set<Proc>, ps: set<Proc>, d: nat, q: Proc, n: nat) {
    d <= n && AtDepth(all, q, n) && Ancestor(all, q, n, n - d) in ps
  }

  ghost predicate RowsUnder(all: set<Proc>, ps: set<Proc>, d: nat, rows: seq<Row>) {
    forall i :: 0 <= i < |rows| ==> Under(all, ps, d, rows[i].proc, rows[i].depth)
  }

  lemma UnderParent(all: set<Proc>, p: Proc, d: nat, q: Proc, n: nat)
    requires Under(all, Kids(all, p.pid), d + 1, q, n)
    requires forall k :: k in Kids(all, p.pid) ==> AtDepth(all, k, d + 1) && ParentOf(all, k) == p
    ensures Under(all, {p}, d, q, n)
  {
    AncestorStep(all, q, n, n - d - 1);
  }

  // ----- what the rows are -----

  // Every row of a tree is under its root, at its own depth in the forest.
  lemma {:induction false} TreeIsUnder(mode: SortMode, all: set<Proc>, procs: set<Proc>, p: Proc, d: nat, indent: string, last: bool)
    requires Remaining(all, procs, d) && p in procs && AtDepth(all, p, d)
    ensures RowsUnder(all, {p}, d, TreeRows(mode, procs, p, d, indent, last))
    decreases |procs|, 0
  {
    hide Ascending, ForestRows, IsRoot, Prefix, ChildIndent;
    KidsRemain(all, procs, p, d);
    var kids := Kids(all, p.pid);
    var below := ForestRows(mode, procs - {p}, Sorted(mode, kids), d + 1, ChildIndent(indent, last, d));
    ForestIsUnder(mode, all, procs - {p}, Sorted(mode, kids), kids, d + 1, ChildIndent(indent, last, d));
    forall i | 0 <= i < |below| ensures Under(all, {p}, d, below[i].proc, below[i].depth) {
      UnderParent(all, p, d, below[i].proc, below[i].depth);
    }
  }

  lemma {:induction false} ForestIsUnder(mode: SortMode, all: set<Proc>, procs: set<Proc>, ps: seq<Proc>, roots: set<Proc>, d: nat, indent: string)
    requires Remaining(all, procs, d)
    requires forall p :: p in ps ==> p in procs && p in roots && AtDepth(all, p, d)
    ensures RowsUnder(all, roots, d, ForestRows(mode, procs, ps, d, indent))
    decreases |procs|, 1 + |ps|
  {
    if ps != [] {
      TreeIsUnder(mode, all, procs, ps[0], d, indent, |ps| == 1);
      ForestIsUnder(mode, all, procs, ps[1..], roots, d, indent);
    }
  }

  ghost predicate NoneTwice(rows: seq<Row>) {
    forall i, j :: 0 <= i < j < |rows| ==> rows[i].proc != rows[j].proc
  }

  // Trees with different roots share no process.
  lemma TreesAreDisjoint(all: set<Proc>, ps: set<Proc>, qs: set<Proc>, d: nat, rows: seq<Row>, others: seq<Row>)
    requires RowsUnder(all, ps, d, rows) && RowsUnder(all, qs, d, others) && ps !! qs
    requires NoneTwice(rows) && NoneTwice(others)
    ensures NoneTwice(rows + others)
  {
    forall i, j | 0 <= i < |rows| && 0 <= j < |others| ensures rows[i].proc != others[j].proc {
      if rows[i].proc == others[j].proc {
        DepthIsUnique(all, rows[i].proc, rows[i].depth, others[j].depth);
      }
    }
  }

  lemma {:induction false} TreeNoneTwice(mode: SortMode, all: set<Proc>, procs: set<Proc>, p: Proc, d: nat, indent: string, last: bool)
    requires Remaining(all, procs, d) && p in procs && AtDepth(all, p, d)
    ensures NoneTwice(TreeRows(mode, procs, p, d, indent, last))
    decreases |procs|, 0
  {
    KidsRemain(all, procs, p, d);
    var kids := Kids(all, p.pid);
    var below := ForestRows(mode, procs - {p}, Sorted(mode, kids), d + 1, ChildIndent(indent, last, d));
    ForestNoneTwice(mode, all, procs - {p}, Sorted(mode, kids), d + 1, ChildIndent(indent, last, d));
    ForestIsUnder(mode, all, procs - {p}, Sorted(mode, kids), kids, d + 1, ChildIndent(indent, last, d));
    forall i | 0 <= i < |below| ensures below[i].proc != p {
      if below[i].proc == p {
        DepthIsUnique(all, p, d, below[i].depth);
      }
    }
  }

  lemma {:induction false} ForestNoneTwice(mode: SortMode, all: set<Proc>, procs: set<Proc>, ps: seq<Proc>, d: nat, indent: string)
    requires Remaining(all, procs, d)
    requires forall p :: p in ps ==> p in procs && AtDepth(all, p, d)
    requires forall i, j :: 0 <= i < j < |ps| ==> ps[i] != ps[j]
    ensures NoneTwice(ForestRows(mode, procs, ps, d, indent))
    decreases |procs|, 1 + |ps|
  {
    if ps != [] {
      TreeNoneTwice(mode, all, procs, ps[0], d, indent, |ps| == 1);
      ForestNoneTwice(mode, all, procs, ps[1..], d, indent);
      TreeIsUnder(mode, all, procs, ps[0], d, indent, |ps| == 1);
      var rest := set p | p in ps[1..];
      ForestIsUnder(mode, all, procs, ps[1..], rest, d, indent);
      TreesAreDisjoint(all, {ps[0]}, rest, d, TreeRows(mode, procs, ps[0], d, indent, |ps| == 1),
                       ForestRows(mode, procs, ps[1..], d, indent));
    }
  }

  ghost predicate Shows(rows: seq<Row>, q: Proc) {
    exists i :: 0 <= i < |rows| && rows[i].proc == q
  }

  // What is under p and not p itself is under one of its children.
  lemma StepDown(all: set<Proc>, p: Proc, d: nat, q: Proc, n: nat) returns (k: Proc)
    requires Distinct(all) && Under(all, {p}, d, q, n) && n > d
    ensures k in Kids(all, p.pid) && Under(all, {k}, d + 1, q, n)
  {
    AncestorStep(all, q, n, n - d - 1);
    k := Ancestor(all, q, n, n - d - 1);
  }

  // Everything under the root of a tree has a row in it.
  lemma {:induction false} TreeIsComplete(mode: SortMode, all: set<Proc>, procs: set<Proc>, p: Proc, d: nat, indent: string, last: bool, q: Proc, n: nat)
    requires Remaining(all, procs, d) && p in procs && AtDepth(all, p, d)
    requires Under(all, {p}, d, q, n)
    ensures Shows(TreeRows(mode, procs, p, d, indent, last), q)
    decreases |procs|, 0
  {
    hide Ascending, IsRoot, AtDepth, ForestRows, Prefix, ChildIndent;
    var rows := TreeRows(mode, procs, p, d, indent, last);
    if n == d {
      assert rows[0].proc == q;
    } else {
      KidsRemain(all, procs, p, d);
      var kids := Sorted(mode, Kids(all, p.pid));
      var k := StepDown(all, p, d, q, n);
      var j :| 0 <= j < |kids| && kids[j] == k;
      ForestIsComplete(mode, all, procs - {p}, kids, d + 1, ChildIndent(indent, last, d), j, q, n);
      var below := ForestRows(mode, procs - {p}, kids, d + 1, ChildIndent(indent, last, d));
      var i :| 0 <= i < |below| && below[i].proc == q;
      assert rows[i + 1].proc == q;
    }
  }

  lemma {:induction false} ForestIsComplete(mode: SortMode, all: set<Proc>, procs: set<Proc>, ps: seq<Proc>, d: nat, indent: string, j: nat, q: Proc, n: nat)
    requires Remaining(all, procs, d) && j < |ps|
    requires forall p :: p in ps ==> p in procs && AtDepth(all, p, d)
    requires Under(all, {ps[j]}, d, q, n)
    ensures Shows(ForestRows(mode, procs, ps, d, indent), q)
    decreases |procs|, 1 + |ps|
  {
    var first := TreeRows(mode, procs, ps[0], d, indent, |ps| == 1);
    var rest := ForestRows(mode, procs, ps[1..], d, indent);
    if j == 0 {
      TreeIsComplete(mode, all, procs, ps[0], d, indent, |ps| == 1, q, n);
      var i :| 0 <= i < |first| && first[i].proc == q;
      assert (first + rest)[i].proc == q;
    } else {
      ForestIsComplete(mode, all, procs, ps[1..], d, indent, j - 1, q, n);
      var i :| 0 <= i < |rest| && rest[i].proc == q;
      assert (first + rest)[|first| + i].proc == q;
    }
  }

  // Without the cap a process is listed, once, exactly when its PPID chain reaches a root: a chain that
  // runs into a cycle is left out.
  lemma ListedIff(mode: SortMode, all: set<Proc>, q: Proc)
    requires Distinct(all)
    ensures NoneTwice(Listing(mode, all))
    ensures Shows(Listing(mode, all), q) <==> ReachesRoot(all, q)
  {
    var roots := Sorted(mode, Roots(all));
    var rows := Listing(mode, all);
    assert Remaining(all, all, 0);
    ForestNoneTwice(mode, all, all, roots, 0, "");
    ForestIsUnder(mode, all, all, roots, Roots(all), 0, "");
    if ReachesRoot(all, q) {
      var n: nat :| AtDepth(all, q, n);
      ReachersAreListed(mode, all, q, n);
    }
    if Shows(rows, q) {
      var i :| 0 <= i < |rows| && rows[i].proc == q;
      assert Under(all, Roots(all), 0, rows[i].proc, rows[i].depth);
    }
  }

  lemma ReachersAreListed(mode: SortMode, all: set<Proc>, q: Proc, n: nat)
    requires Distinct(all) && AtDepth(all, q, n)
    ensures Shows(Listing(mode, all), q)
  {
    hide ForestRows, TreeRows;
    var a := Ancestor(all, q, n, n);
    assert a in Roots(all);
    var roots := Sorted(mode, Roots(all));
    var j :| 0 <= j < |roots| && roots[j] == a;
    ForestIsComplete(mode, all, all, roots, 0, "", j, q, n);
  }

  // ----- reading the tree back from the rows -----

  // Row j is the parent of row i, and every row between them is at least as deep as row i.
  ghost predicate ParentRow(all: set<Proc>, rows: seq<Row>, i: nat, j: nat) {
    && j < i < |rows| && rows[i].depth == rows[j].depth + 1
    && !IsRoot(all, rows[i].proc) && rows[j].proc == ParentOf(all, rows[i].proc)
    && forall k :: j < k < i ==> rows[k].depth >= rows[i].depth
  }

  ghost predicate HasParentRow(all: set<Proc>, rows: seq<Row>, i: nat) {
    exists j: nat :: ParentRow(all, rows, i, j)
  }

  ghost predicate Linked(all: set<Proc>, rows: seq<Row>, d: nat) {
    forall i :: 0 <= i < |rows| ==> rows[i].depth >= d && (rows[i].depth > d ==> HasParentRow(all, rows, i))
  }

  lemma ParentRowShifts(all: set<Proc>, a: seq<Row>, b: seq<Row>, i: nat, j: nat)
    requires ParentRow(all, b, i, j)
    ensures HasParentRow(all, a + b, |a| + i)
  {
    hide IsRoot;
    forall k | |a| + j < k < |a| + i ensures (a + b)[k].depth >= b[i].depth {
      assert (a + b)[k] == b[k - |a|];
    }
    assert ParentRow(all, a + b, |a| + i, |a| + j);
  }

  lemma LinkedConcat(all: set<Proc>, a: seq<Row>, b: seq<Row>, d: nat)
    requires Linked(all, a, d) && Linked(all, b, d)
    ensures Linked(all, a + b, d)
  {
    hide IsRoot;
    var rows := a + b;
    forall i | 0 <= i < |rows| && rows[i].depth > d ensures HasParentRow(all, rows, i) {
      if i < |a| {
        var j: nat :| ParentRow(all, a, i, j);
        assert ParentRow(all, rows, i, j);
      } else {
        var j: nat :| ParentRow(all, b, i - |a|, j);
        ParentRowShifts(all, a, b, i - |a|, j);
      }
    }
  }

  lemma LinkedUnder(all: set<Proc>, head: Row, below: seq<Row>)
    requires Linked(all, below, head.depth + 1)
    requires forall i :: 0 <= i < |below| && below[i].depth == head.depth + 1 ==>
               !IsRoot(all, below[i].proc) && ParentOf(all, below[i].proc) == head.proc
    ensures Linked(all, [head] + below, head.depth)
  {
    hide IsRoot, ParentRow;
    var rows := [head] + below;
    forall i | 0 < i < |rows| ensures rows[i].depth > head.depth && HasParentRow(all, rows, i) {
      assert rows[i] == below[i - 1];
      if rows[i].depth == head.depth + 1 {
        ChildOfHead(all, head, below, i - 1);
      } else {
        var j: nat :| ParentRow(all, below, i - 1, j);
        ParentRowShifts(all, [head], below, i - 1, j);
      }
    }
  }

  lemma ChildOfHead(all: set<Proc>, head: Row, below: seq<Row>, i: nat)
    requires Linked(all, below, head.depth + 1) && i < |below| && below[i].depth == head.depth + 1
    requires !IsRoot(all, below[i].proc) && ParentOf(all, below[i].proc) == head.proc
    ensures HasParentRow(all, [head] + below, i + 1)
  {
    hide IsRoot;
    assert ParentRow(all, [head] + below, i + 1, 0);
  }

  lemma {:induction false} TreeIsLinked(mode: SortMode, all: set<Proc>, procs: set<Proc>, p: Proc, d: nat, indent: string, last: bool)
    requires Remaining(all, procs, d) && p in procs && AtDepth(all, p, d)
    ensures Linked(all, TreeRows(mode, procs, p, d, indent, last), d)
    decreases |procs|, 0
  {
    hide Ascending, ForestRows, Prefix, ChildIndent;
    KidsRemain(all, procs, p, d);
    var kids := Kids(all, p.pid);
    var below := ForestRows(mode, procs - {p}, Sorted(mode, kids), d + 1, ChildIndent(indent, last, d));
    ForestIsLinked(mode, all, procs - {p}, Sorted(mode, kids), d + 1, ChildIndent(indent, last, d));
    ForestIsUnder(mode, all, procs - {p}, Sorted(mode, kids), kids, d + 1, ChildIndent(indent, last, d));
    forall i | 0 <= i < |below| && below[i].depth == d + 1
      ensures !IsRoot(all, below[i].proc) && ParentOf(all, below[i].proc) == p
    {
      assert below[i].proc in kids;
    }
    LinkedUnder(all, Row(p, d, Prefix(indent, last, d)), below);
  }

  lemma {:induction false} ForestIsLinked(mode: SortMode, all: set<Proc>, procs: set<Proc>, ps: seq<Proc>, d: nat, indent: string)
    requires Remaining(all, procs, d)
    requires forall p :: p in ps ==> p in procs && AtDepth(all, p, d)
    ensures Linked(all, ForestRows(mode, procs, ps, d, indent), d)
    decreases |procs|, 1 + |ps|
  {
    if ps != [] {
      TreeIsLinked(mode, all, procs, ps[0], d, indent, |ps| == 1);
      ForestIsLinked(mode, all, procs, ps[1..], d, indent);
      LinkedConcat(all, TreeRows(mode, procs, ps[0], d, indent, |ps| == 1), ForestRows(mode, procs, ps[1..], d, indent), d);
    }
  }

  // ----- siblings -----

  ghost predicate Siblings(all: set<Proc>, a: Proc, b: Proc) {
    if IsRoot(all, a) || IsRoot(all, b) then IsRoot(all, a) && IsRoot(all, b)
    else ParentOf(all, a) == ParentOf(all, b)
  }

  // Siblings appear in the order of the sort mode.
  ghost predicate SiblingsInOrder(mode: SortMode, all: set<Proc>, rows: seq<Row>) {
    forall i, j :: 0 <= i < j < |rows| && Siblings(all, rows[i].proc, rows[j].proc) ==>
      Before(mode, rows[i].proc, rows[j].proc)
  }

  lemma SiblingDepth(all: set<Proc>, a: Proc, m: nat, b: Proc, n: nat)
    requires AtDepth(all, a, m) && AtDepth(all, b, n) && Siblings(all, a, b)
    ensures m == n
  {
    if !IsRoot(all, a) {
      DepthIsUnique(all, ParentOf(all, a), m - 1, n - 1);
    }
  }

  // Siblings under one root or another: below depth d they are under the same one.
  lemma SiblingsAcross(mode: SortMode, all: set<Proc>, p: Proc, rest: set<Proc>, d: nat, a: Proc, m: nat, b: Proc, n: nat)
    requires Under(all, {p}, d, a, m) && Under(all, rest, d, b, n) && Siblings(all, a, b)
    requires p !in rest && forall q :: q in rest ==> Before(mode, p, q)
    ensures Before(mode, a, b)
  {
    SiblingDepth(all, a, m, b, n);
    assert n == d;
  }

  lemma {:induction false} TreeSiblings(mode: SortMode, all: set<Proc>, procs: set<Proc>, p: Proc, d: nat, indent: string, last: bool)
    requires Remaining(all, procs, d) && p in procs && AtDepth(all, p, d)
    ensures SiblingsInOrder(mode, all, TreeRows(mode, procs, p, d, indent, last))
    decreases |procs|, 0
  {
    hide ForestRows, Siblings, Prefix, ChildIndent;
    KidsRemain(all, procs, p, d);
    var kids := Kids(all, p.pid);
    var below := ForestRows(mode, procs - {p}, Sorted(mode, kids), d + 1, ChildIndent(indent, last, d));
    ForestSiblings(mode, all, procs - {p}, Sorted(mode, kids), d + 1, ChildIndent(indent, last, d));
    ForestIsUnder(mode, all, procs - {p}, Sorted(mode, kids), kids, d + 1, ChildIndent(indent, last, d));
    forall i | 0 <= i < |below| ensures !Siblings(all, p, below[i].proc) {
      if Siblings(all, p, below[i].proc) {
        SiblingDepth(all, p, d, below[i].proc, below[i].depth);
      }
    }
  }

  lemma {:induction false} ForestSiblings(mode: SortMode, all: set<Proc>, procs: set<Proc>, ps: seq<Proc>, d: nat, indent: string)
    requires Remaining(all, procs, d) && Ascending(mode, ps)
    requires forall p :: p in ps ==> p in procs && AtDepth(all, p, d)
    ensures SiblingsInOrder(mode, all, ForestRows(mode, procs, ps, d, indent))
    decreases |procs|, 1 + |ps|
  {
    hide TreeRows, Siblings, AtDepth, Before;
    if ps != [] {
      var tree := TreeRows(mode, procs, ps[0], d, indent, |ps| == 1);
      var others := ForestRows(mode, procs, ps[1..], d, indent);
      var rest := set p | p in ps[1..];
      TreeSiblings(mode, all, procs, ps[0], d, indent, |ps| == 1);
      ForestSiblings(mode, all, procs, ps[1..], d, indent);
      TreeIsUnder(mode, all, procs, ps[0], d, indent, |ps| == 1);
      ForestIsUnder(mode, all, procs, ps[1..], rest, d, indent);
      BeforeTotal(mode, ps[0], ps[0]);
      SiblingsConcat(mode, all, tree, others, ps[0], rest, d);
    }
  }

  lemma SiblingsConcat(mode: SortMode, all: set<Proc>, tree: seq<Row>, others: seq<Row>, p: Proc, rest: set<Proc>, d: nat)
    requires RowsUnder(all, {p}, d, tree) && RowsUnder(all, rest, d, others)
    requires p !in rest && forall q :: q in rest ==> Before(mode, p, q)
    requires SiblingsInOrder(mode, all, tree) && SiblingsInOrder(mode, all, others)
    ensures SiblingsInOrder(mode, all, tree + others)
  {
    hide Under, Siblings, Before;
    var rows := tree + others;
    forall i, j | 0 <= i < j < |rows| && Siblings(all, rows[i].proc, rows[j].proc)
      ensures Before(mode, rows[i].proc, rows[j].proc)
    {
      if i < |tree| <= j {
        assert rows[j] == others[j - |tree|];
        SiblingsAcross(mode, all, p, rest, d, rows[i].proc, rows[i].depth, rows[j].proc, rows[j].depth);
      }
    }
  }

  // ----- the drawn branches -----

  ghost predicate Drawn(mode: SortMode, all: set<Proc>, rows: seq<Row>) {
    forall i :: 0 <= i < |rows| ==> IsDrawn(mode, all, rows[i])
  }

  ghost predicate IsDrawn(mode: SortMode, all: set<Proc>, row: Row) {
    AtDepth(all, row.proc, row.depth) && row.prefix == Branch(mode, all, row.proc, row.depth)
  }

  // Of siblings in order only the final one is last.
  ghost predicate LastOnly(mode: SortMode, all: set<Proc>, ps: seq<Proc>) {
    forall j :: 0 <= j < |ps| ==> (IsLast(mode, all, ps[j]) <==> j == |ps| - 1)
  }

  lemma SortedKidsLastOnly(mode: SortMode, all: set<Proc>, pid: nat)
    requires Distinct(all)
    ensures LastOnly(mode, all, Sorted(mode, Kids(all, pid)))
  {
    var kids := Sorted(mode, Kids(all, pid));
    forall j | 0 <= j < |kids| ensures IsLast(mode, all, kids[j]) <==> j == |kids| - 1 {
      assert kids[j] in kids;
      if j < |kids| - 1 {
        var k := kids[|kids| - 1];
        assert k in kids && Before(mode, kids[j], k);
        BeforeTotal(mode, kids[j], k);
      }
    }
  }

  // What a depth-d process inherits from above.
  ghost predicate Inherited(mode: SortMode, all: set<Proc>, p: Proc, d: nat, indent: string)
    requires AtDepth(all, p, d)
  {
    d > 0 ==> indent == Indent(mode, all, ParentOf(all, p), d - 1)
  }

  lemma {:induction false} TreeIsDrawn(mode: SortMode, all: set<Proc>, procs: set<Proc>, p: Proc, d: nat, indent: string, last: bool)
    requires Remaining(all, procs, d) && p in procs && AtDepth(all, p, d)
    requires Inherited(mode, all, p, d, indent) && (d > 0 ==> (last <==> IsLast(mode, all, p)))
    ensures Drawn(mode, all, TreeRows(mode, procs, p, d, indent, last))
    decreases |procs|, 0
  {
    hide ForestRows, Ascending, IsLast;
    KidsRemain(all, procs, p, d);
    var kids := Sorted(mode, Kids(all, p.pid));
    SortedKidsLastOnly(mode, all, p.pid);
    assert ChildIndent(indent, last, d) == Indent(mode, all, p, d);
    ForestIsDrawn(mode, all, procs - {p}, kids, d + 1, ChildIndent(indent, last, d));
    assert IsDrawn(mode, all, Row(p, d, Prefix(indent, last, d)));
  }

  lemma {:induction false} ForestIsDrawn(mode: SortMode, all: set<Proc>, procs: set<Proc>, ps: seq<Proc>, d: nat, indent: string)
    requires Remaining(all, procs, d)
    requires forall p :: p in ps ==> p in procs && AtDepth(all, p, d) && Inherited(mode, all, p, d, indent)
    requires d > 0 ==> LastOnly(mode, all, ps)
    ensures Drawn(mode, all, ForestRows(mode, procs, ps, d, indent))
    decreases |procs|, 1 + |ps|
  {
    hide IsLast, TreeRows;
    if ps != [] {
      TreeIsDrawn(mode, all, procs, ps[0], d, indent, |ps| == 1);
      assert d > 0 ==> LastOnly(mode, all, ps[1..]);
      ForestIsDrawn(mode, all, procs, ps[1..], d, indent);
    }
  }

  // The rows tell the tree: a prefix is three runes per level, drawn from who has later siblings, and the
  // parent of a row is the nearest earlier row with a prefix three runes shorter.
  lemma ListingTellsTheTree(mode: SortMode, all: set<Proc>)
    requires Distinct(all)
    ensures Drawn(mode, all, Listing(mode, all))
    ensures var rows := Listing(mode, all);
            forall i :: 0 <= i < |rows| ==> |rows[i].prefix| == 3 * rows[i].depth
    ensures var rows := Listing(mode, all);
            forall i :: 0 <= i < |rows| && rows[i].prefix != "" ==> NearestShorter(all, rows, i)
    ensures SiblingsInOrder(mode, all, Listing(mode, all))
  {
    hide ForestRows, Linked, Drawn, SiblingsInOrder;
    var rows := Listing(mode, all);
    var roots := Sorted(mode, Roots(all));
    ForestIsDrawn(mode, all, all, roots, 0, "");
    ForestIsLinked(mode, all, all, roots, 0, "");
    ForestSiblings(mode, all, all, roots, 0, "");
    RowsTell(mode, all, rows);
  }

  lemma RowsTell(mode: SortMode, all: set<Proc>, rows: seq<Row>)
    requires Drawn(mode, all, rows) && Linked(all, rows, 0)
    ensures forall i :: 0 <= i < |rows| ==> |rows[i].prefix| == 3 * rows[i].depth
    ensures forall i :: 0 <= i < |rows| && rows[i].prefix != "" ==> NearestShorter(all, rows, i)
  {
    hide IsRoot, AtDepth;
    forall i | 0 <= i < |rows| ensures |rows[i].prefix| == 3 * rows[i].depth {
      assert IsDrawn(mode, all, rows[i]);
    }
    forall i | 0 <= i < |rows| && rows[i].prefix != "" ensures NearestShorter(all, rows, i) {
      assert HasParentRow(all, rows, i);
      var j: nat :| ParentRow(all, rows, i, j);
      assert forall k :: j < k < i ==> |rows[k].prefix| == 3 * rows[k].depth;
      assert IsNearestShorter(all, rows, i, j);
    }
  }

  // The parent of row i is shown, and it is the nearest earlier row whose prefix is three runes shorter.
  ghost predicate NearestShorter(all: set<Proc>, rows: seq<Row>, i: nat) {
    i < |rows| && exists j: nat :: j < i && IsNearestShorter(all, rows, i, j)
  }

  ghost predicate IsNearestShorter(all: set<Proc>, rows: seq<Row>, i: nat, j: nat)
    requires j < i < |rows|
  {
    && !IsRoot(all, rows[i].proc) && rows[j].proc == ParentOf(all, rows[i].proc)
    && |rows[j].prefix| + 3 == |rows[i].prefix|
    && forall k :: j < k < i ==> |rows[k].prefix| + 3 != |rows[i].prefix|
  }

  // ----- the listing in terms of the processes' own fields -----

  // One of the processes is its parent, and not itself.
  ghost predicate HasParent(all: set<Proc>, p: Proc) {
    p.ppid != p.pid && exists q :: q in all && q.pid == p.ppid
  }

  ghost predicate SameParent(all: set<Proc>, p: Proc, q: Proc) {
    if HasParent(all, p) then HasParent(all, q) && p.ppid == q.ppid else !HasParent(all, q)
  }

  // By the mode's own field, busiest first, names and PIDs rising; equals by rising PID.
  ghost predicate InFieldOrder(mode: SortMode, p: Proc, q: Proc) {
    match mode
    case ByCPU => p.cpu >= q.cpu && (p.cpu == q.cpu ==> p.pid < q.pid)
    case ByMem => p.mem >= q.mem && (p.mem == q.mem ==> p.pid < q.pid)
    case ByIO =>
      && p.ioRead + p.ioWrite >= q.ioRead + q.ioWrite
      && (p.ioRead + p.ioWrite == q.ioRead + q.ioWrite ==> p.pid < q.pid)
    case ByName => !StringLess(q.name, p.name) && (p.name == q.name ==> p.pid < q.pid)
    case ByPID => p.pid < q.pid
  }

  lemma BeforeMeans(mode: SortMode, p: Proc, q: Proc)
    requires Before(mode, p, q)
    ensures InFieldOrder(mode, p, q)
  {
    StringLessTotal(p.name, q.name);
  }

  // Whoever two processes belong to, of two with the same parent the one the mode puts first is listed
  // first.
  lemma SiblingsAreInFieldOrder(mode: SortMode, all: set<Proc>)
    requires Distinct(all)
    ensures var rows := Listing(mode, all);
            forall i, j :: 0 <= i < j < |rows| && SameParent(all, rows[i].proc, rows[j].proc) ==>
              InFieldOrder(mode, rows[i].proc, rows[j].proc)
  {
    ListingTellsTheTree(mode, all);
    var rows := Listing(mode, all);
    hide Listing, InFieldOrder, Before, Drawn;
    forall i, j | 0 <= i < j < |rows| && SameParent(all, rows[i].proc, rows[j].proc)
      ensures InFieldOrder(mode, rows[i].proc, rows[j].proc)
    {
      SameParentAreSiblings(all, rows[i].proc, rows[j].proc);
      BeforeMeans(mode, rows[i].proc, rows[j].proc);
    }
  }

  lemma SameParentAreSiblings(all: set<Proc>, p: Proc, q: Proc)
    requires Distinct(all)
    ensures SameParent(all, p, q) <==> Siblings(all, p, q)
  {}

  // From q up, each process the parent of the one before, to one that has none.
  ghost predicate Chain(all: set<Proc>, c: seq<Proc>, q: Proc) {
    && c != [] && c[0] == q && (forall i :: 0 <= i < |c| ==> c[i] in all)
    && (forall i :: 0 <= i < |c| - 1 ==> HasParent(all, c[i]) && c[i + 1].pid == c[i].ppid)
    && !HasParent(all, c[|c| - 1])
  }

  lemma {:induction false} ChainOf(all: set<Proc>, q: Proc, n: nat) returns (c: seq<Proc>)
    requires Distinct(all) && AtDepth(all, q, n)
    ensures Chain(all, c, q)
    decreases n
  {
    c := [q];
    if n > 0 {
      var up := ChainOf(all, ParentOf(all, q), n - 1);
      c := [q] + up;
      assert forall i :: 0 < i < |c| ==> c[i] == up[i - 1];
    }
  }

  lemma {:induction false} ChainDepth(all: set<Proc>, c: seq<Proc>, q: Proc)
    requires Distinct(all) && Chain(all, c, q)
    ensures AtDepth(all, q, |c| - 1)
    decreases |c|
  {
    if |c| > 1 {
      assert ParentOf(all, q) == c[1];
      ChainDepth(all, c[1..], c[1]);
    }
  }

  // Without the cap a process is listed exactly when following PPIDs from it ends at one without a parent.
  lemma ListedIffChain(mode: SortMode, all: set<Proc>, q: Proc)
    requires Distinct(all)
    ensures Shows(Listing(mode, all), q) <==> exists c :: Chain(all, c, q)
  {
    ListedIff(mode, all, q);
    hide Listing, Shows, Chain;
    if ReachesRoot(all, q) {
      var n: nat :| AtDepth(all, q, n);
      var c := ChainOf(all, q, n);
    }
    if c :| Chain(all, c, q) {
      ChainDepth(all, c, q);
    }
  }

  // No later row has the same parent.
  ghost predicate LastOfItsParent(rows: seq<Row>, i: nat)
    requires i < |rows|
  {
    forall k :: i < k < |rows| && rows[k].prefix != "" ==> rows[k].proc.ppid != rows[i].proc.ppid
  }

  // What a row that is not a root draws under the row of its parent.
  ghost predicate DrawnUnder(rows: seq<Row>, i: nat, j: nat)
    requires j < i < |rows|
  {
    var n, m := |rows[i].prefix| - 3, |rows[j].prefix| - 3;
    && n == m + 3
    && rows[i].prefix[n..] == (if LastOfItsParent(rows, i) then "\U{2514}\U{2500} " else "\U{251C}\U{2500} ")
    && rows[i].prefix[..n] ==
       if m < 0 then "" else rows[j].prefix[..m] + (if LastOfItsParent(rows, j) then "   " else "\U{2502}  ")
  }

  // Row j is the parent of row i, and the rows between them are at least as deep as row i.
  ghost predicate IsParentRow(rows: seq<Row>, i: nat, j: nat)
    requires j < i < |rows|
  {
    && rows[j].proc.pid == rows[i].proc.ppid
    && forall k :: j < k < i ==> |rows[k].prefix| >= |rows[i].prefix|
  }

  ghost predicate DrawnUnderParent(rows: seq<Row>, i: nat) {
    exists j: nat :: j < i < |rows| && IsParentRow(rows, i, j) && DrawnUnder(rows, i, j)
  }

  ghost predicate DeepRows(all: set<Proc>, rows: seq<Row>) {
    forall i :: 0 <= i < |rows| ==> AtDepth(all, rows[i].proc, rows[i].depth) && |rows[i].prefix| == 3 * rows[i].depth
  }

  lemma LaterRowOfParent(mode: SortMode, all: set<Proc>, rows: seq<Row>, i: nat, k: nat)
    requires Distinct(all) && DeepRows(all, rows) && SiblingsInOrder(mode, all, rows)
    requires i < k < |rows| && rows[i].prefix != "" && rows[k].prefix != "" && rows[k].proc.ppid == rows[i].proc.ppid
    ensures !IsLast(mode, all, rows[i].proc)
  {
    hide Before;
    SiblingLater(mode, all, rows[i].proc, rows[k].proc);
  }

  lemma LaterSiblingIsLater(mode: SortMode, all: set<Proc>, rows: seq<Row>, i: nat, k: Proc, j: nat)
    requires Distinct(all) && DeepRows(all, rows) && SiblingsInOrder(mode, all, rows)
    requires i < |rows| && j < |rows| && rows[j].proc == k && AtDepth(all, k, rows[i].depth) && rows[i].prefix != ""
    requires k.pid != rows[i].proc.pid && !Before(mode, k, rows[i].proc) && k.ppid == rows[i].proc.ppid
    requires Siblings(all, k, rows[i].proc)
    ensures !LastOfItsParent(rows, i)
  {
    DepthIsUnique(all, k, rows[i].depth, rows[j].depth);
    hide Before, AtDepth, Siblings;
    assert j > i;
  }

  // A sibling that comes later in the order has a later row, so a row is drawn as last exactly if no
  // later row has its parent.
  lemma LastIsLast(mode: SortMode, all: set<Proc>, i: nat)
    requires Distinct(all) && i < |Listing(mode, all)| && Listing(mode, all)[i].prefix != ""
    ensures IsLast(mode, all, Listing(mode, all)[i].proc) <==> LastOfItsParent(Listing(mode, all), i)
  {
    var rows := Listing(mode, all);
    var p := rows[i].proc;
    ListingTellsTheTree(mode, all);
    RowsAreDeep(mode, all);
    assert AtDepth(all, p, rows[i].depth) && rows[i].depth > 0;
    assert !IsRoot(all, p);
    hide Listing, Before, DeepRows, SiblingsInOrder, Drawn, AtDepth, IsRoot, Siblings;
    if !LastOfItsParent(rows, i) {
      var k :| i < k < |rows| && rows[k].prefix != "" && rows[k].proc.ppid == p.ppid;
      LaterRowOfParent(mode, all, rows, i, k);
    }
    if !IsLast(mode, all, p) {
      hide LastOfItsParent, IsLast;
      var k := LaterSibling(mode, all, p, rows[i].depth);
      ReachersAreListed(mode, all, k, rows[i].depth);
      var j: nat :| j < |rows| && rows[j].proc == k;
      LaterSiblingIsLater(mode, all, rows, i, k, j);
    }
  }

  lemma RowsAreDeep(mode: SortMode, all: set<Proc>)
    requires Distinct(all)
    ensures DeepRows(all, Listing(mode, all))
  {
    ListingTellsTheTree(mode, all);
    var rows := Listing(mode, all);
    hide Listing, AtDepth, Branch;
    forall i | 0 <= i < |rows| ensures AtDepth(all, rows[i].proc, rows[i].depth) {
      assert IsDrawn(mode, all, rows[i]);
    }
  }

  lemma SiblingLater(mode: SortMode, all: set<Proc>, p: Proc, k: Proc)
    requires Distinct(all) && !IsRoot(all, p) && !IsRoot(all, k) && k.ppid == p.ppid && p in all && k in all
    requires Siblings(all, p, k) ==> Before(mode, p, k)
    ensures !IsLast(mode, all, p)
  {
    assert Siblings(all, p, k);
    assert k in Kids(all, p.ppid);
    BeforeTotal(mode, p, k);
    BeforeTotal(mode, p, p);
  }

  lemma LaterSibling(mode: SortMode, all: set<Proc>, p: Proc, n: nat) returns (k: Proc)
    requires Distinct(all) && AtDepth(all, p, n) && !IsRoot(all, p) && !IsLast(mode, all, p)
    ensures k != p && k.pid != p.pid && AtDepth(all, k, n) && !Before(mode, k, p) && Siblings(all, k, p)
    ensures !IsRoot(all, k) && ParentOf(all, k) == ParentOf(all, p) && k.ppid == p.ppid
  {
    k :| k in Kids(all, p.ppid) && k != p && !Before(mode, k, p);
    assert ParentOf(all, p) in all && ParentOf(all, p).pid == k.ppid;
    assert !IsRoot(all, k);
    assert ParentOf(all, k) == ParentOf(all, p);
  }

  ghost predicate LastsAgree(mode: SortMode, all: set<Proc>, rows: seq<Row>) {
    forall i :: 0 <= i < |rows| && rows[i].prefix != "" ==> LastAgrees(mode, all, rows, i)
  }

  ghost predicate LastAgrees(mode: SortMode, all: set<Proc>, rows: seq<Row>, i: nat)
    requires i < |rows|
  {
    IsLast(mode, all, rows[i].proc) <==> LastOfItsParent(rows, i)
  }

  lemma RowInFields(mode: SortMode, all: set<Proc>, rows: seq<Row>, i: nat)
    requires Distinct(all) && DeepRows(all, rows) && Drawn(mode, all, rows) && Linked(all, rows, 0)
    requires LastsAgree(mode, all, rows) && i < |rows| && HasParent(all, rows[i].proc)
    ensures DrawnUnderParent(rows, i)
  {
    hide IsLast, LastOfItsParent;
    assert !IsRoot(all, rows[i].proc);
    assert rows[i].depth > 0;
    hide IsRoot, HasParent;
    assert HasParentRow(all, rows, i);
    var j: nat :| ParentRow(all, rows, i, j);
    ParentOfRow(all, rows, i, j);
    hide Linked, ParentRow, DeepRows, AtDepth, Branch;
    assert IsDrawn(mode, all, rows[i]) && IsDrawn(mode, all, rows[j]);
    DrawnFromBranches(mode, all, rows, i, j);
  }

  lemma ParentOfRow(all: set<Proc>, rows: seq<Row>, i: nat, j: nat)
    requires DeepRows(all, rows) && ParentRow(all, rows, i, j)
    ensures IsParentRow(rows, i, j)
    ensures rows[i].prefix != "" && (rows[j].depth > 0 ==> rows[j].prefix != "")
    ensures !IsRoot(all, rows[i].proc) && ParentOf(all, rows[i].proc) == rows[j].proc
    ensures rows[i].depth == rows[j].depth + 1
  {
    hide AtDepth;
  }

  // Every row with a parent is drawn under the nearest earlier row that can be it, the rows without are
  // flush left: the prefixes are determined by the processes' PIDs and PPIDs and the order of the rows.
  lemma PrefixesInFields(mode: SortMode, all: set<Proc>, i: nat)
    requires Distinct(all) && i < |Listing(mode, all)|
    ensures var rows := Listing(mode, all);
            if HasParent(all, rows[i].proc) then DrawnUnderParent(rows, i) else rows[i].prefix == ""
  {
    var rows := Listing(mode, all);
    ForestIsLinked(mode, all, all, Sorted(mode, Roots(all)), 0, "");
    ListingTellsTheTree(mode, all);
    RowsAreDeep(mode, all);
    hide Listing, ForestRows, Drawn, Linked, SiblingsInOrder, IsLast, LastOfItsParent, DrawnUnderParent;
    forall j | 0 <= j < |rows| && rows[j].prefix != "" ensures LastAgrees(mode, all, rows, j) {
      LastIsLast(mode, all, j);
    }
    if HasParent(all, rows[i].proc) {
      hide DeepRows;
      RowInFields(mode, all, rows, i);
    }
  }

  lemma DrawnFromBranches(mode: SortMode, all: set<Proc>, rows: seq<Row>, i: nat, j: nat)
    requires j < i < |rows| && IsDrawn(mode, all, rows[i]) && IsDrawn(mode, all, rows[j])
    requires rows[i].depth == rows[j].depth + 1 && !IsRoot(all, rows[i].proc) && ParentOf(all, rows[i].proc) == rows[j].proc
    requires IsLast(mode, all, rows[i].proc) <==> LastOfItsParent(rows, i)
    requires rows[j].depth > 0 ==> (IsLast(mode, all, rows[j].proc) <==> LastOfItsParent(rows, j))
    ensures DrawnUnder(rows, i, j)
  {
    hide IsLast, LastOfItsParent, IsRoot;
    var p, q, d := rows[i].proc, rows[j].proc, rows[j].depth;
    assert rows[i].prefix == Indent(mode, all, q, d) + (if IsLast(mode, all, p) then ELBOW else TEE);
    if d > 0 {
      var above := Indent(mode, all, ParentOf(all, q), d - 1);
      assert rows[j].prefix == above + (if IsLast(mode, all, q) then ELBOW else TEE);
      assert Indent(mode, all, q, d) == above + (if IsLast(mode, all, q) then "   " else BAR);
      assert rows[j].prefix[..|rows[j].prefix| - 3] == above;
    }
  }

  // ----- the walk -----

  function First<T>(s: seq<T>, n: nat): seq<T> {
    if |s| <= n then s else s[..n]
  }

  const PROCS_DISPLAY_CAP := 200

  // procsCap
  function ProcsCap(configured: int): nat {
    if configured > 0 then configured else PROCS_DISPLAY_CAP
  }

  // Go's read of a missing key.
  function ChildrenOf(children: map<nat, seq<Proc>>, pid: nat): seq<Proc> {
    if pid in children then children[pid] else []
  }

  ghost predicate ChildrenSorted(mode: SortMode, all: set<Proc>, children: map<nat, seq<Proc>>)
    requires Distinct(all)
  {
    forall p :: p in all ==> ChildrenOf(children, p.pid) == Sorted(mode, Kids(all, p.pid))
  }

  // With `rest` still to come after `rows`, the capped result will be the capped goal.
  ghost predicate Heading(cap: nat, rows: seq<Row>, rest: seq<Row>, goal: seq<Row>) {
    First(rows + rest, cap) == First(goal, cap) && NoneTwice(rows + rest)
  }

  lemma CutNoneTwice(a: seq<Row>, rest: seq<Row>, n: nat)
    requires NoneTwice(a + rest) && n <= |a|
    ensures NoneTwice(a) && NoneTwice(a[..n] + rest)
  {
    var whole, cut := a + rest, a[..n] + rest;
    var gap := |a| - n;
    assert forall i :: 0 <= i < |a| ==> a[i] == whole[i];
    assert forall i :: 0 <= i < n ==> cut[i] == whole[i];
    assert forall i :: n <= i < |cut| ==> cut[i] == whole[i + gap];
  }

  lemma FirstOfFirst(cap: nat, a: seq<Row>, rest: seq<Row>)
    ensures First(First(a, cap) + rest, cap) == First(a + rest, cap)
  {}

  lemma HeadingStep(cap: nat, rows: seq<Row>, tree: seq<Row>, rest: seq<Row>, goal: seq<Row>)
    requires Heading(cap, rows, tree + rest, goal)
    ensures NoneTwice(rows + tree)
    ensures Heading(cap, First(rows + tree, cap), rest, goal)
  {
    hide NoneTwice;
    assert rows + (tree + rest) == (rows + tree) + rest;
    FirstOfFirst(cap, rows + tree, rest);
    CutNoneTwice(rows + tree, rest, if |rows + tree| <= cap then |rows + tree| else cap);
  }

  class TreeWalk {
    const mode: SortMode
    const cap: nat
    ghost const all: set<Proc>
    const children: map<nat, seq<Proc>>
    var out: seq<Proc>
    var prefixes: seq<string>
    var visited: set<nat>
    ghost var rows: seq<Row>

    ghost predicate Valid()
      reads this
    {
      && Distinct(all) && ChildrenSorted(mode, all, children)
      && |out| == |prefixes| == |rows| <= cap
      && (forall i :: 0 <= i < |rows| ==> out[i] == rows[i].proc && prefixes[i] == rows[i].prefix)
      && (forall i :: 0 <= i < |rows| ==> out[i] in all)
      && forall pid :: pid in visited <==> exists i :: 0 <= i < |out| && out[i].pid == pid
    }

    constructor (mode: SortMode, cap: nat, children: map<nat, seq<Proc>>, ghost all: set<Proc>)
      requires Distinct(all) && ChildrenSorted(mode, all, children)
      ensures Valid() && rows == [] && this.mode == mode && this.cap == cap && this.all == all
    {
      this.mode, this.cap, this.children, this.all := mode, cap, children, all;
      out, prefixes, visited, rows := [], [], {}, [];
    }

    method Append(p: Proc, prefix: string, ghost d: nat)
      requires Valid() && |out| < cap && p in all
      modifies this
      ensures Valid() && rows == old(rows) + [Row(p, d, prefix)]
    {
      visited := visited + {p.pid};
      out := out + [p];
      prefixes := prefixes + [prefix];
      rows := rows + [Row(p, d, prefix)];
      forall pid ensures pid in visited <==> exists i :: 0 <= i < |out| && out[i].pid == pid {
        assert out[|out| - 1].pid == p.pid;
        if pid in old(visited) {
          var i :| 0 <= i < |old(out)| && old(out)[i].pid == pid;
          assert out[i].pid == pid;
        }
      }
    }

    // The recursive closure: it adds the rows of p's tree, as far as the cap lets it.
    method Walk(p: Proc, indent: string, last: bool, isRoot: bool, ghost procs: set<Proc>, ghost d: nat)
      requires Valid() && isRoot == (d == 0)
      requires Remaining(all, procs, d) && p in procs && AtDepth(all, p, d)
      requires NoneTwice(rows + TreeRows(mode, procs, p, d, indent, last))
      modifies this
      ensures Valid() && rows == First(old(rows) + TreeRows(mode, procs, p, d, indent, last), cap)
      decreases |procs|, 0
    {
      hide AtDepth, IsRoot, ForestRows, Ascending, ChildrenOf;
      ghost var goal := rows + TreeRows(mode, procs, p, d, indent, last);
      assert goal[|rows|].proc == p;
      forall i | 0 <= i < |out| ensures out[i].pid != p.pid {
        assert goal[i].proc == out[i];
      }
      if |out| >= cap || p.pid in visited {
        return;
      }
      var prefix, childIndent := "", "";
      if !isRoot {
        if last {
          prefix, childIndent := indent + ELBOW, indent + "   ";
        } else {
          prefix, childIndent := indent + TEE, indent + BAR;
        }
      }
      Append(p, prefix, d);
      KidsRemain(all, procs, p, d);
      var kids := ChildrenOf(children, p.pid);
      assert rows + ForestRows(mode, procs - {p}, kids, d + 1, childIndent) == goal;
      WalkAll(kids, childIndent, false, procs - {p}, d + 1);
    }

    // The loop over siblings.
    method WalkAll(ps: seq<Proc>, indent: string, areRoots: bool, ghost procs: set<Proc>, ghost d: nat)
      requires Valid() && areRoots == (d == 0)
      requires Remaining(all, procs, d) && forall p :: p in ps ==> p in procs && AtDepth(all, p, d)
      requires NoneTwice(rows + ForestRows(mode, procs, ps, d, indent))
      modifies this
      ensures Valid() && rows == First(old(rows) + ForestRows(mode, procs, ps, d, indent), cap)
      decreases |procs|, 1
    {
      assert |rows| <= cap;
      hide AtDepth, IsRoot, ForestRows, TreeRows, Valid, Kids;
      ghost var goal := rows + ForestRows(mode, procs, ps, d, indent);
      assert ps[0..] == ps;
      for i := 0 to |ps|
        invariant Valid() && |rows| <= cap
        invariant Heading(cap, rows, ForestRows(mode, procs, ps[i..], d, indent), goal)
      {
        ForestHead(mode, procs, ps, i, d, indent);
        HeadingStep(cap, rows, TreeRows(mode, procs, ps[i], d, indent, i == |ps| - 1),
                    ForestRows(mode, procs, ps[i + 1..], d, indent), goal);
        Walk(ps[i], indent, i == |ps| - 1, areRoots, procs, d);
      }
      NothingLeft(mode, procs, ps, d, indent);
      assert rows + [] == rows;
    }
  }

  lemma NothingLeft(mode: SortMode, procs: set<Proc>, ps: seq<Proc>, d: nat, indent: string)
    requires Distinct(procs)
    ensures ForestRows(mode, procs, ps[|ps|..], d, indent) == []
  {}

  lemma ForestHead(mode: SortMode, procs: set<Proc>, ps: seq<Proc>, i: nat, d: nat, indent: string)
    requires Distinct(procs) && (forall p :: p in ps ==> p in procs) && i < |ps|
    ensures ForestRows(mode, procs, ps[i..], d, indent) ==
            TreeRows(mode, procs, ps[i], d, indent, i == |ps| - 1) + ForestRows(mode, procs, ps[i + 1..], d, indent)
  {
    assert ps[i..][1..] == ps[i + 1..];
  }

  function ToSet(procs: seq<Proc>): set<Proc> {
    set p | p in procs
  }

  // One PID, one process: what /proc lists.
  ghost predicate DistinctPids(procs: seq<Proc>) {
    forall i, j :: 0 <= i < j < |procs| ==> procs[i].pid != procs[j].pid
  }

  // Every process seen is filed under its parent, or with the roots.
  ghost predicate Filed(all: set<Proc>, seen: set<Proc>, children: map<nat, seq<Proc>>, roots: seq<Proc>) {
    && (forall p :: p in all ==> Lists(ChildrenOf(children, p.pid), Kids(seen, p.pid)))
    && Lists(roots, Roots(all) * seen)
  }

  lemma FileChild(all: set<Proc>, seen: set<Proc>, children: map<nat, seq<Proc>>, roots: seq<Proc>, p: Proc)
    requires Filed(all, seen, children, roots) && p in all && p !in seen && !IsRoot(all, p)
    ensures Filed(all, seen + {p}, children[p.ppid := ChildrenOf(children, p.ppid) + [p]], roots)
  {
    var more := children[p.ppid := ChildrenOf(children, p.ppid) + [p]];
    forall q | q in all ensures Lists(ChildrenOf(more, q.pid), Kids(seen + {p}, q.pid)) {
      assert Lists(ChildrenOf(children, q.pid), Kids(seen, q.pid));
      assert Kids(seen + {p}, q.pid) == if q.pid == p.ppid then Kids(seen, q.pid) + {p} else Kids(seen, q.pid);
    }
    assert Roots(all) * (seen + {p}) == Roots(all) * seen;
  }

  lemma FileRoot(all: set<Proc>, seen: set<Proc>, children: map<nat, seq<Proc>>, roots: seq<Proc>, p: Proc)
    requires Filed(all, seen, children, roots) && p in all && p !in seen && IsRoot(all, p)
    ensures Filed(all, seen + {p}, children, roots + [p])
  {
    assert forall q :: q in all ==> Kids(seen + {p}, q.pid) == Kids(seen, q.pid);
    assert Roots(all) * (seen + {p}) == Roots(all) * seen + {p};
  }

  lemma SliceStableIsSorted(mode: SortMode, s: seq<Proc>, procs: set<Proc>)
    requires Distinct(procs) && Lists(s, procs)
    ensures SliceStable(mode, s) == Sorted(mode, procs)
  {
    SliceStableSorts(mode, s, procs);
    SortingIsUnique(mode, SliceStable(mode, s), Sorted(mode, procs), procs);
  }

  // byPID, children and roots, before sorting.
  method FileByParent(procs: seq<Proc>) returns (children: map<nat, seq<Proc>>, roots: seq<Proc>)
    requires DistinctPids(procs)
    ensures Filed(ToSet(procs), ToSet(procs), children, roots)
  {
    ghost var all := ToSet(procs);
    var byPID: map<nat, Proc> := map[];
    for i := 0 to |procs|
      invariant byPID.Keys == set p | p in procs[..i] :: p.pid
    {
      byPID := byPID[procs[i].pid := procs[i]];
    }
    assert procs[..|procs|] == procs;
    children, roots := map[], [];
    for i := 0 to |procs|
      invariant Filed(all, ToSet(procs[..i]), children, roots)
    {
      var p := procs[i];
      assert ToSet(procs[..i + 1]) == ToSet(procs[..i]) + {p};
      assert IsRoot(all, p) <==> p.ppid !in byPID || p.ppid == p.pid;
      if p.ppid in byPID && p.ppid != p.pid {
        FileChild(all, ToSet(procs[..i]), children, roots, p);
        children := children[p.ppid := ChildrenOf(children, p.ppid) + [p]];
      } else {
        FileRoot(all, ToSet(procs[..i]), children, roots, p);
        roots := roots + [p];
      }
    }
  }

  // Sorting every list of children, in whatever order the map gives them.
  method SortChildren(mode: SortMode, filed: map<nat, seq<Proc>>) returns (children: map<nat, seq<Proc>>)
    ensures forall pid :: ChildrenOf(children, pid) == SliceStable(mode, ChildrenOf(filed, pid))
  {
    hide SliceStable;
    children := filed;
    var todo := filed.Keys;
    while todo != {}
      invariant todo <= filed.Keys == children.Keys
      invariant forall pid :: ChildrenOf(children, pid) ==
                              if pid in todo then ChildrenOf(filed, pid) else SliceStable(mode, ChildrenOf(filed, pid))
      decreases |todo|
    {
      var pid :| pid in todo;
      children := children[pid := SliceStable(mode, children[pid])];
      todo := todo - {pid};
    }
  }

  // The forest as computeProcsTree prepares it: the roots and all lists of children in order.
  method SortedForest(procs: seq<Proc>, mode: SortMode) returns (children: map<nat, seq<Proc>>, roots: seq<Proc>)
    requires DistinctPids(procs)
    ensures Distinct(ToSet(procs)) && ChildrenSorted(mode, ToSet(procs), children)
    ensures roots == Sorted(mode, Roots(ToSet(procs)))
  {
    ghost var all := ToSet(procs);
    assert Distinct(all);
    var filed, found := FileByParent(procs);
    roots := SliceStable(mode, found);
    SliceStableIsSorted(mode, found, Roots(all) * all);
    assert Roots(all) * all == Roots(all);
    children := SortChildren(mode, filed);
    forall p | p in all ensures ChildrenOf(children, p.pid) == Sorted(mode, Kids(all, p.pid)) {
      SliceStableIsSorted(mode, ChildrenOf(filed, p.pid), Kids(all, p.pid));
    }
  }

  // computeProcsTree: the first rows of the forest's preorder, as many as the cap allows. The result
  // depends on which processes there are, not on the order they are listed in.
  method ComputeProcsTree(procs: seq<Proc>, mode: SortMode, configured: int)
    returns (out: seq<Proc>, prefixes: seq<string>)
    requires DistinctPids(procs)
    ensures Distinct(ToSet(procs))
    ensures var rows, cap := Listing(mode, ToSet(procs)), if configured > 0 then configured else 200;
            && |out| == |prefixes| == (if |rows| <= cap then |rows| else cap)
            && forall i :: 0 <= i < |out| ==> out[i] == rows[i].proc && prefixes[i] == rows[i].prefix
  {
    ghost var all := ToSet(procs);
    var children, roots := SortedForest(procs, mode);
    var w := new TreeWalk(mode, ProcsCap(configured), children, all);
    ForestNoneTwice(mode, all, all, roots, 0, "");
    assert [] + Listing(mode, all) == Listing(mode, all);
    hide ForestRows, ChildrenSorted, NoneTwice, Kids;
    w.WalkAll(roots, "", true, all, 0);
    return w.out, w.prefixes;
  }
}

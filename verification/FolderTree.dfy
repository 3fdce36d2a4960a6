/** The persona folder tree, built from arbitrary parent data. */
module FolderTree {
  import opened Ordering
  import opened Text

  /** A folder row; `parent` is None for a root. */
  datatype Folder = Folder(id: string, name: string, parent: Option<string>, description: Option<string>,
      sortOrder: int)

  /** Folder ids are unique in the database. */
  ghost predicate UniqueIds(fs: seq<Folder>) {
    forall i, j :: 0 <= i < j < |fs| ==> fs[i].id != fs[j].id
  }

  // ---------------------------------------------------------------- parents and depths

  ghost function IndexOf(fs: seq<Folder>, id: string): (r: Option<nat>)
    ensures r.Some? ==> r.value < |fs| && fs[r.value].id == id
    ensures r.None? ==> forall i :: 0 <= i < |fs| ==> fs[i].id != id
  {
    if i :| 0 <= i < |fs| && fs[i].id == id then Some(i) else None
  }

  ghost function ParentOf(fs: seq<Folder>, i: nat): (r: Option<nat>)
    requires i < |fs|
    ensures r.Some? ==> r.value < |fs|
  {
    if fs[i].parent.None? then None else IndexOf(fs, fs[i].parent.value)
  }

  ghost function Ancestor(fs: seq<Folder>, i: nat, k: nat): (r: Option<nat>)
    requires i < |fs|
    ensures r.Some? ==> r.value < |fs|
    decreases k
  {
    if k == 0 then Some(i)
    else
      var parent := ParentOf(fs, i);
      if parent.Some? then Ancestor(fs, parent.value, k - 1) else None
  }

  /** The parent chain of folder i reaches a null parent after d steps. */
  ghost predicate AtDepth(fs: seq<Folder>, i: nat, d: nat)
    requires i < |fs|
  {
    var top := Ancestor(fs, i, d);
    top.Some? && fs[top.value].parent == None
  }

  ghost predicate Rooted(fs: seq<Folder>, i: nat)
    requires i < |fs|
  {
    exists d :: AtDepth(fs, i, d)
  }

  lemma {:induction false} DepthUnique(fs: seq<Folder>, i: nat, d: nat, e: nat)
    requires i < |fs| && AtDepth(fs, i, d) && AtDepth(fs, i, e)
    ensures d == e
    decreases d
  {
    if d > 0 && e > 0 {
      DepthUnique(fs, ParentOf(fs, i).value, d - 1, e - 1);
    }
  }

  lemma {:induction false} AncestorDepth(fs: seq<Folder>, i: nat, d: nat, k: nat)
    requires i < |fs| && AtDepth(fs, i, d) && k <= d
    ensures Ancestor(fs, i, k).Some? && AtDepth(fs, Ancestor(fs, i, k).value, d - k)
    decreases k
  {
    if k > 0 {
      AncestorDepth(fs, ParentOf(fs, i).value, d - 1, k - 1);
    }
  }

  /** The indices of the folders on the chain, up to k steps. */
  ghost function Chain(fs: seq<Folder>, i: nat, k: nat): set<nat>
    requires i < |fs|
    decreases k
  {
    if k == 0 then {i}
    else
      var parent := ParentOf(fs, i);
      {i} + if parent.Some? then Chain(fs, parent.value, k - 1) else {}
  }

  lemma {:induction false} ChainSize(fs: seq<Folder>, i: nat, d: nat)
    requires i < |fs| && AtDepth(fs, i, d)
    ensures |Chain(fs, i, d)| == d + 1
    ensures forall j :: j in Chain(fs, i, d) ==> j < |fs| && exists k :: 0 <= k <= d && AtDepth(fs, j, k)
    decreases d
  {
    if d > 0 {
      var parent := ParentOf(fs, i).value;
      ChainSize(fs, parent, d - 1);
      if i in Chain(fs, parent, d - 1) {
        var k :| 0 <= k <= d - 1 && AtDepth(fs, i, k);
        DepthUnique(fs, i, d, k);
      }
    }
  }

  lemma {:induction false} Pigeonhole(s: set<nat>, n: nat)
    requires forall j :: j in s ==> j < n
    ensures |s| <= n
  {
    if n > 0 {
      Pigeonhole(s - {n - 1}, n - 1);
    } else {
      assert s == {};
    }
  }

  /** A chain cannot be longer than there are folders. */
  lemma DepthBound(fs: seq<Folder>, i: nat, d: nat)
    requires i < |fs| && AtDepth(fs, i, d)
    ensures d < |fs|
  {
    ChainSize(fs, i, d);
    Pigeonhole(Chain(fs, i, d), |fs|);
  }

  // ---------------------------------------------------------------- sorting

  /** The sort key (sort_order, name). */
  predicate Leq(a: Folder, b: Folder) {
    a.sortOrder < b.sortOrder || (a.sortOrder == b.sortOrder && CompareString(a.name, b.name) <= 0)
  }

  lemma LeqOrder(a: Folder, b: Folder, c: Folder)
    ensures Leq(a, b) || Leq(b, a)
    ensures Leq(a, b) && Leq(b, c) ==> Leq(a, c)
  {
    StringsLinear();
    assert CompareString(a.name, b.name) == -CompareString(b.name, a.name);
    if CompareString(a.name, b.name) <= 0 && CompareString(b.name, c.name) <= 0 {
      assert CompareString(a.name, b.name) == 0 <==> a.name == b.name;
      assert CompareString(b.name, c.name) == 0 <==> b.name == c.name;
    }
  }

  function Insert<T>(x: T, s: seq<T>, key: T -> Folder): seq<T> {
    if |s| == 0 then [x]
    else if Leq(key(x), key(s[0])) then [x] + s
    else [s[0]] + Insert(x, s[1..], key)
  }

  /** `list.sort` with this key; it is stable. */
  function SortBy<T>(s: seq<T>, key: T -> Folder): seq<T> {
    if |s| == 0 then [] else Insert(s[0], SortBy(s[1..], key), key)
  }

  ghost predicate Sorted<T>(s: seq<T>, key: T -> Folder) {
    forall i, j :: 0 <= i < j < |s| ==> Leq(key(s[i]), key(s[j]))
  }

  lemma {:induction false} InsertMembers<T>(x: T, s: seq<T>, key: T -> Folder)
    ensures |Insert(x, s, key)| == |s| + 1
    ensures forall y :: y in Insert(x, s, key) <==> y == x || y in s
  {
    if |s| > 0 && !Leq(key(x), key(s[0])) {
      InsertMembers(x, s[1..], key);
      assert s == [s[0]] + s[1..];
    }
  }

  lemma {:induction false} SortMembers<T>(s: seq<T>, key: T -> Folder)
    ensures |SortBy(s, key)| == |s|
    ensures forall y :: y in SortBy(s, key) <==> y in s
  {
    if |s| > 0 {
      SortMembers(s[1..], key);
      InsertMembers(s[0], SortBy(s[1..], key), key);
      assert s == [s[0]] + s[1..];
    }
  }

  lemma {:induction false} InsertAbove<T>(x: T, s: seq<T>, key: T -> Folder, low: Folder)
    requires Leq(low, key(x)) && forall j :: 0 <= j < |s| ==> Leq(low, key(s[j]))
    ensures forall j :: 0 <= j < |Insert(x, s, key)| ==> Leq(low, key(Insert(x, s, key)[j]))
  {
    if |s| > 0 && !Leq(key(x), key(s[0])) {
      InsertAbove(x, s[1..], key, low);
    }
  }

  lemma {:induction false} InsertSorted<T>(x: T, s: seq<T>, key: T -> Folder)
    requires Sorted(s, key)
    ensures Sorted(Insert(x, s, key), key)
  {
    if |s| > 0 {
      LeqOrder(key(x), key(s[0]), key(x));
      if Leq(key(x), key(s[0])) {
        forall j | 0 <= j < |s| ensures Leq(key(x), key(s[j])) {
          LeqOrder(key(x), key(s[0]), key(s[j]));
        }
      } else {
        InsertSorted(x, s[1..], key);
        forall j | 0 <= j < |s[1..]| ensures Leq(key(s[0]), key(s[1..][j])) {
          assert s[1..][j] == s[j + 1];
        }
        InsertAbove(x, s[1..], key, key(s[0]));
      }
    }
  }

  lemma {:induction false} SortSorted<T>(s: seq<T>, key: T -> Folder)
    ensures Sorted(SortBy(s, key), key)
  {
    if |s| > 0 {
      SortSorted(s[1..], key);
      InsertSorted(s[0], SortBy(s[1..], key), key);
    }
  }

  lemma {:induction false} SortFixed<T>(s: seq<T>, key: T -> Folder)
    requires Sorted(s, key)
    ensures SortBy(s, key) == s
  {
    if |s| > 0 {
      SortFixed(s[1..], key);
      assert |s| > 1 ==> Leq(key(s[0]), key(s[1]));
      assert s == [s[0]] + s[1..];
    }
  }

  /** The elements whose key equals `k`, in order. */
  ghost function WithKey<T>(s: seq<T>, key: T -> Folder, k: Folder): seq<T> {
    if |s| == 0 then []
    else (if Leq(key(s[0]), k) && Leq(k, key(s[0])) then [s[0]] else []) + WithKey(s[1..], key, k)
  }

  lemma {:induction false} InsertStable<T>(x: T, s: seq<T>, key: T -> Folder, k: Folder)
    ensures WithKey(Insert(x, s, key), key, k)
         == (if Leq(key(x), k) && Leq(k, key(x)) then [x] else []) + WithKey(s, key, k)
  {
    var inserted := Insert(x, s, key);
    if |s| > 0 {
      if Leq(key(x), key(s[0])) {
        assert inserted[1..] == s;
      } else {
        InsertStable(x, s[1..], key, k);
        assert inserted[1..] == Insert(x, s[1..], key);
        LeqOrder(key(x), k, key(s[0]));
      }
    }
  }

  /** Sorting permutes, and keeps the order of elements with equal keys. */
  lemma {:induction false} SortStable<T>(s: seq<T>, key: T -> Folder, k: Folder)
    ensures WithKey(SortBy(s, key), key, k) == WithKey(s, key, k)
  {
    if |s| > 0 {
      SortStable(s[1..], key, k);
      InsertStable(s[0], SortBy(s[1..], key), key, k);
    }
  }

  // ---------------------------------------------------------------- the forest

  /** The folders below i among the first m, in database order. */
  ghost function KidsBefore(fs: seq<Folder>, i: nat, m: nat): (idx: seq<nat>)
    requires m <= |fs|
    ensures forall c: nat :: c in idx ==> c < |fs| && ParentOf(fs, c) == Some(i)
  {
    if m == 0 then [] else KidsBefore(fs, i, m - 1) + (if ParentOf(fs, m - 1) == Some(i) then [m - 1] else [])
  }

  ghost function RootsBefore(fs: seq<Folder>, m: nat): (idx: seq<nat>)
    requires m <= |fs|
  {
    if m == 0 then [] else RootsBefore(fs, m - 1) + (if fs[m - 1].parent == None then [m - 1] else [])
  }

  function Key(fs: seq<Folder>): nat -> Folder {
    (i: nat) => if i < |fs| then fs[i] else Folder("", "", None, None, 0)
  }

  ghost function Kids(fs: seq<Folder>, i: nat): seq<nat> {
    KidsBefore(fs, i, |fs|)
  }

  ghost predicate AllAtDepth(fs: seq<Folder>, idx: seq<nat>, d: nat) {
    forall k :: 0 <= k < |idx| ==> idx[k] < |fs| && AtDepth(fs, idx[k], d)
  }

  lemma SortedAtDepth(fs: seq<Folder>, idx: seq<nat>, d: nat)
    requires AllAtDepth(fs, idx, d)
    ensures AllAtDepth(fs, SortBy(idx, Key(fs)), d)
  {
    var s := SortBy(idx, Key(fs));
    SortMembers(idx, Key(fs));
    forall k | 0 <= k < |s| ensures s[k] < |fs| && AtDepth(fs, s[k], d) {
      assert s[k] in s;
    }
  }

  lemma KidsAtDepth(fs: seq<Folder>, i: nat, d: nat)
    requires i < |fs| && AtDepth(fs, i, d)
    ensures AllAtDepth(fs, Kids(fs, i), d + 1) && AllAtDepth(fs, SortBy(Kids(fs, i), Key(fs)), d + 1)
  {
    forall k | 0 <= k < |Kids(fs, i)| ensures Kids(fs, i)[k] < |fs| && AtDepth(fs, Kids(fs, i)[k], d + 1) {
      assert Kids(fs, i)[k] in Kids(fs, i);
    }
    SortedAtDepth(fs, Kids(fs, i), d + 1);
  }

  datatype Tree = Tree(folder: nat, children: seq<Tree>)

  ghost function TreeOf(fs: seq<Folder>, i: nat, d: nat): Tree
    requires i < |fs| && AtDepth(fs, i, d)
    decreases |fs| - d, 0
  {
    DepthBound(fs, i, d);
    KidsAtDepth(fs, i, d);
    Tree(i, Forest(fs, SortBy(Kids(fs, i), Key(fs)), d + 1))
  }

  ghost function Forest(fs: seq<Folder>, idx: seq<nat>, d: nat): seq<Tree>
    requires AllAtDepth(fs, idx, d)
    decreases |fs| - d, |idx|
  {
    if idx == [] then [] else Forest(fs, idx[..|idx| - 1], d) + [TreeOf(fs, idx[|idx| - 1], d)]
  }

  lemma {:induction false} RootMembers(fs: seq<Folder>, m: nat)
    requires m <= |fs|
    ensures forall k :: 0 <= k < |RootsBefore(fs, m)| ==>
              RootsBefore(fs, m)[k] < |fs| && fs[RootsBefore(fs, m)[k]].parent == None
  {
    if m > 0 {
      RootMembers(fs, m - 1);
    }
  }

  ghost function FolderForest(fs: seq<Folder>): seq<Tree> {
    RootsSorted(fs);
    Forest(fs, SortBy(RootsBefore(fs, |fs|), Key(fs)), 0)
  }

  lemma RootsSorted(fs: seq<Folder>)
    ensures AllAtDepth(fs, RootsBefore(fs, |fs|), 0) && AllAtDepth(fs, SortBy(RootsBefore(fs, |fs|), Key(fs)), 0)
  {
    var roots := RootsBefore(fs, |fs|);
    RootMembers(fs, |fs|);
    SortedAtDepth(fs, roots, 0);
  }

  /** How often folder j occurs. */
  ghost function Count(t: Tree, j: nat): nat {
    (if t.folder == j then 1 else 0) + CountAll(t.children, j)
  }

  ghost function CountAll(ts: seq<Tree>, j: nat): nat {
    if ts == [] then 0 else CountAll(ts[..|ts| - 1], j) + Count(ts[|ts| - 1], j)
  }

  // ---------------------------------------------------------------- each rooted folder exactly once

  ghost function Occurrences(idx: seq<nat>, c: nat): nat {
    if idx == [] then 0 else Occurrences(idx[..|idx| - 1], c) + if idx[|idx| - 1] == c then 1 else 0
  }

  lemma {:induction false} InsertOccurrences(x: nat, s: seq<nat>, key: nat -> Folder, c: nat)
    ensures Occurrences(Insert(x, s, key), c) == Occurrences(s, c) + if x == c then 1 else 0
  {
    if s != [] {
      if Leq(key(x), key(s[0])) {
        OccurrencesCons(x, s, c);
      } else {
        InsertOccurrences(x, s[1..], key, c);
        OccurrencesCons(s[0], Insert(x, s[1..], key), c);
        OccurrencesCons(s[0], s[1..], c);
        assert s == [s[0]] + s[1..];
      }
    }
  }

  lemma {:induction false} OccurrencesCons(x: nat, s: seq<nat>, c: nat)
    ensures Occurrences([x] + s, c) == Occurrences(s, c) + if x == c then 1 else 0
  {
    if s != [] {
      assert ([x] + s)[..|s|] == [x] + s[..|s| - 1];
      OccurrencesCons(x, s[..|s| - 1], c);
    } else {
      assert [x] + s == [x];
    }
  }

  lemma OccurrencesSnoc(s: seq<nat>, x: nat, added: bool, c: nat)
    ensures Occurrences(s + (if added then [x] else []), c) == Occurrences(s, c) + if added && x == c then 1 else 0
  {
    if added {
      assert (s + [x])[..|s|] == s;
    } else {
      assert s + [] == s;
    }
  }

  lemma {:induction false} SortOccurrences(s: seq<nat>, key: nat -> Folder, c: nat)
    ensures Occurrences(SortBy(s, key), c) == Occurrences(s, c)
  {
    if s != [] {
      SortOccurrences(s[1..], key, c);
      InsertOccurrences(s[0], SortBy(s[1..], key), key, c);
      OccurrencesCons(s[0], s[1..], c);
      assert s == [s[0]] + s[1..];
    }
  }

  lemma {:induction false} KidsOccur(fs: seq<Folder>, i: nat, m: nat, c: nat)
    requires m <= |fs| && c < |fs|
    ensures Occurrences(KidsBefore(fs, i, m), c) == if c < m && ParentOf(fs, c) == Some(i) then 1 else 0
  {
    if m > 0 {
      KidsOccur(fs, i, m - 1, c);
      OccurrencesSnoc(KidsBefore(fs, i, m - 1), m - 1, ParentOf(fs, m - 1) == Some(i), c);
    }
  }

  lemma {:induction false} RootsOccur(fs: seq<Folder>, m: nat, c: nat)
    requires m <= |fs| && c < |fs|
    ensures Occurrences(RootsBefore(fs, m), c) == if c < m && fs[c].parent == None then 1 else 0
  {
    if m > 0 {
      RootsOccur(fs, m - 1, c);
      OccurrencesSnoc(RootsBefore(fs, m - 1), m - 1, fs[m - 1].parent == None, c);
    }
  }

  /** The one folder on the chain of j that can stand at depth d. */
  ghost function AncestorAt(fs: seq<Folder>, j: nat, depth: nat, d: nat): (r: Option<nat>)
    requires j < |fs|
  {
    if d <= depth then Ancestor(fs, j, depth - d) else None
  }

  /** A rooted folder j occurs in the tree of i iff i is its ancestor at that depth, and then once. */
  lemma {:induction false} CountTree(fs: seq<Folder>, i: nat, d: nat, j: nat, depth: nat)
    requires i < |fs| && AtDepth(fs, i, d) && j < |fs| && AtDepth(fs, j, depth)
    ensures Count(TreeOf(fs, i, d), j) == if AncestorAt(fs, j, depth, d) == Some(i) then 1 else 0
    decreases |fs| - d, 0
  {
    DepthBound(fs, i, d);
    KidsAtDepth(fs, i, d);
    var below := Forest(fs, SortBy(Kids(fs, i), Key(fs)), d + 1);
    assert Count(TreeOf(fs, i, d), j) == CountAll(below, j) + if i == j then 1 else 0;
    CountForest(fs, SortBy(Kids(fs, i), Key(fs)), d + 1, j, depth);
    if i == j {
      DepthUnique(fs, i, d, depth);
    }
    if depth > d {
      KidOccursOnce(fs, i, d, j, depth);
    }
  }

  /** Of the children of i, the ancestor of j at their depth is one iff i is the next ancestor. */
  lemma KidOccursOnce(fs: seq<Folder>, i: nat, d: nat, j: nat, depth: nat)
    requires j < |fs| && AtDepth(fs, j, depth) && depth > d
    ensures AncestorAt(fs, j, depth, d + 1).Some?
    ensures Occurrences(SortBy(Kids(fs, i), Key(fs)), AncestorAt(fs, j, depth, d + 1).value)
         == if AncestorAt(fs, j, depth, d) == Some(i) then 1 else 0
  {
    var k := depth - d - 1;
    AncestorDepth(fs, j, depth, k);
    AncestorStep(fs, j, k);
    var c := Ancestor(fs, j, k).value;
    SortOccurrences(Kids(fs, i), Key(fs), c);
    KidsOccur(fs, i, |fs|, c);
  }

  lemma {:induction false} AncestorStep(fs: seq<Folder>, j: nat, k: nat)
    requires j < |fs| && Ancestor(fs, j, k).Some?
    ensures Ancestor(fs, j, k + 1) == ParentOf(fs, Ancestor(fs, j, k).value)
    decreases k
  {
    if k > 0 {
      AncestorStep(fs, ParentOf(fs, j).value, k - 1);
    }
  }

  lemma {:induction false} CountForest(fs: seq<Folder>, idx: seq<nat>, d: nat, j: nat, depth: nat)
    requires AllAtDepth(fs, idx, d) && j < |fs| && AtDepth(fs, j, depth)
    ensures var a := AncestorAt(fs, j, depth, d);
            CountAll(Forest(fs, idx, d), j) == if a.Some? then Occurrences(idx, a.value) else 0
    decreases |fs| - d, |idx|
  {
    if idx != [] {
      CountForest(fs, idx[..|idx| - 1], d, j, depth);
      CountTree(fs, idx[|idx| - 1], d, j, depth);
      var f := Forest(fs, idx, d);
      assert f[..|f| - 1] == Forest(fs, idx[..|idx| - 1], d);
    }
  }

  lemma {:induction false} CountedIsRooted(fs: seq<Folder>, i: nat, d: nat, j: nat)
    requires i < |fs| && AtDepth(fs, i, d) && Count(TreeOf(fs, i, d), j) > 0
    ensures j < |fs| && Rooted(fs, j)
    decreases |fs| - d, 0
  {
    if i != j {
      DepthBound(fs, i, d);
      KidsAtDepth(fs, i, d);
      ForestRooted(fs, SortBy(Kids(fs, i), Key(fs)), d + 1, j);
    }
  }

  lemma {:induction false} ForestRooted(fs: seq<Folder>, idx: seq<nat>, d: nat, j: nat)
    requires AllAtDepth(fs, idx, d) && CountAll(Forest(fs, idx, d), j) > 0
    ensures j < |fs| && Rooted(fs, j)
    decreases |fs| - d, |idx|
  {
    var f := Forest(fs, idx, d);
    assert f[..|f| - 1] == Forest(fs, idx[..|idx| - 1], d);
    if Count(f[|f| - 1], j) > 0 {
      CountedIsRooted(fs, idx[|idx| - 1], d, j);
    } else {
      ForestRooted(fs, idx[..|idx| - 1], d, j);
    }
  }

  /** For any parent data, self-parents, cycles and missing parents included, the forest contains
      every folder whose parent chain reaches a null parent exactly once, and no other folder. */
  lemma ForestExact(fs: seq<Folder>, j: nat)
    ensures CountAll(FolderForest(fs), j) == if j < |fs| && Rooted(fs, j) then 1 else 0
  {
    var roots := RootsBefore(fs, |fs|);
    RootsSorted(fs);
    if j < |fs| && Rooted(fs, j) {
      var depth :| AtDepth(fs, j, depth);
      CountForest(fs, SortBy(roots, Key(fs)), 0, j, depth);
      var top := Ancestor(fs, j, depth).value;
      SortOccurrences(roots, Key(fs), top);
      RootsOccur(fs, |fs|, top);
    } else if CountAll(FolderForest(fs), j) > 0 {
      ForestRooted(fs, SortBy(roots, Key(fs)), 0, j);
    }
  }

  /** A folder that is its own ancestor is not in the forest. */
  lemma CycleUnrooted(fs: seq<Folder>, i: nat, k: nat)
    requires i < |fs| && k > 0 && Ancestor(fs, i, k) == Some(i)
    ensures !Rooted(fs, i) && CountAll(FolderForest(fs), i) == 0
  {
    if Rooted(fs, i) {
      var d: nat :| AtDepth(fs, i, d);
      if k <= d {
        AncestorDepth(fs, i, d, k);
        DepthUnique(fs, i, d, d - k);
      } else {
        NoFurther(fs, i, d, k);
      }
    }
    ForestExact(fs, i);
  }

  /** The chain ends at the null parent. */
  lemma {:induction false} NoFurther(fs: seq<Folder>, i: nat, d: nat, k: nat)
    requires i < |fs| && AtDepth(fs, i, d) && k > d
    ensures Ancestor(fs, i, k) == None
    decreases d
  {
    if d > 0 {
      NoFurther(fs, ParentOf(fs, i).value, d - 1, k - 1);
    }
  }

  // ---------------------------------------------------------------- order and parents

  /** Siblings are sorted at every depth, and every child names its parent. */
  ghost predicate WellPlaced(fs: seq<Folder>, t: Tree) {
    && t.folder < |fs|
    && (forall k :: 0 <= k < |t.children| ==>
          WellPlaced(fs, t.children[k]) && fs[t.children[k].folder].parent == Some(fs[t.folder].id))
    && SiblingsSorted(fs, t.children)
  }

  ghost predicate SiblingsSorted(fs: seq<Folder>, ts: seq<Tree>) {
    && (forall k :: 0 <= k < |ts| ==> ts[k].folder < |fs|)
    && forall j, k :: 0 <= j < k < |ts| ==> ComesBefore(fs, ts[j].folder, ts[k].folder)
  }

  /** Lower `sort_order`, or lower name where they first differ, or earlier in the database. */
  ghost predicate ComesBefore(fs: seq<Folder>, a: nat, b: nat)
    requires a < |fs| && b < |fs|
  {
    var x, y := fs[a], fs[b];
    || x.sortOrder < y.sortOrder
    || (x.sortOrder == y.sortOrder &&
        (Before(x.name, y.name, (c: char, d: char) => c < d) || (x.name == y.name && a < b)))
  }

  lemma ComesBeforeIff(fs: seq<Folder>, a: nat, b: nat)
    requires a < |fs| && b < |fs|
    ensures ComesBefore(fs, a, b) <==> Leq(fs[a], fs[b]) && (Leq(fs[b], fs[a]) ==> a < b)
  {
    StringBefore(fs[a].name, fs[b].name);
    StringsLinear();
    assert CompareString(fs[a].name, fs[b].name) == 0 <==> fs[a].name == fs[b].name;
  }

  ghost predicate AllBefore(fs: seq<Folder>, idx: seq<nat>) {
    && (forall k :: 0 <= k < |idx| ==> idx[k] < |fs|)
    && forall j, k :: 0 <= j < k < |idx| ==> ComesBefore(fs, idx[j], idx[k])
  }

  lemma {:induction false} InsertBefore(fs: seq<Folder>, x: nat, s: seq<nat>)
    requires x < |fs| && AllBefore(fs, s) && forall k :: 0 <= k < |s| ==> x < s[k]
    ensures AllBefore(fs, Insert(x, s, Key(fs)))
    ensures forall i :: i in Insert(x, s, Key(fs)) <==> i == x || i in s
  {
    if s != [] {
      forall k | 0 <= k < |s| ensures ComesBefore(fs, x, s[k]) || !Leq(fs[x], fs[s[k]]) {
        ComesBeforeIff(fs, x, s[k]);
      }
      if Leq(fs[x], fs[s[0]]) {
        forall k | 0 <= k < |s| ensures ComesBefore(fs, x, s[k]) {
          if k > 0 {
            ComesBeforeIff(fs, s[0], s[k]);
            LeqOrder(fs[x], fs[s[0]], fs[s[k]]);
          }
        }
      } else {
        InsertBefore(fs, x, s[1..]);
        var rest := Insert(x, s[1..], Key(fs));
        LeqOrder(fs[x], fs[s[0]], fs[x]);
        ComesBeforeIff(fs, s[0], x);
        forall k | 0 <= k < |rest| ensures ComesBefore(fs, s[0], rest[k]) {
          assert rest[k] in rest;
          if rest[k] != x {
            var m :| 0 <= m < |s[1..]| && s[1..][m] == rest[k];
            assert s[m + 1] == rest[k];
          }
        }
        AllBeforeCons(fs, s[0], rest);
      }
    }
  }

  lemma AllBeforeCons(fs: seq<Folder>, first: nat, rest: seq<nat>)
    requires first < |fs| && AllBefore(fs, rest) && forall k :: 0 <= k < |rest| ==> ComesBefore(fs, first, rest[k])
    ensures AllBefore(fs, [first] + rest)
  {
  }

  ghost predicate Ascending(idx: seq<nat>) {
    forall j, k :: 0 <= j < k < |idx| ==> idx[j] < idx[k]
  }

  /** Sorting a list in database order puts it into exactly one order. */
  lemma {:induction false} SortBefore(fs: seq<Folder>, idx: seq<nat>)
    requires Ascending(idx) && forall k :: 0 <= k < |idx| ==> idx[k] < |fs|
    ensures AllBefore(fs, SortBy(idx, Key(fs)))
  {
    if idx != [] {
      SortBefore(fs, idx[1..]);
      SortMembers(idx[1..], Key(fs));
      var s := SortBy(idx[1..], Key(fs));
      forall k | 0 <= k < |s| ensures idx[0] < s[k] {
        assert s[k] in s;
        var m :| 0 <= m < |idx[1..]| && idx[1..][m] == s[k];
        assert idx[m + 1] == s[k];
      }
      InsertBefore(fs, idx[0], s);
    }
  }

  lemma SiblingsInOrder(fs: seq<Folder>, ts: seq<Tree>, idx: seq<nat>)
    requires Ascending(idx) && (forall k :: 0 <= k < |idx| ==> idx[k] < |fs|) && |ts| == |idx|
    requires |SortBy(idx, Key(fs))| == |idx| && forall k :: 0 <= k < |ts| ==> ts[k].folder == SortBy(idx, Key(fs))[k]
    ensures SiblingsSorted(fs, ts)
  {
    SortBefore(fs, idx);
  }

  lemma {:induction false} KidsAscend(fs: seq<Folder>, i: nat, m: nat)
    requires m <= |fs|
    ensures Ascending(KidsBefore(fs, i, m))
    ensures forall k :: 0 <= k < |KidsBefore(fs, i, m)| ==> KidsBefore(fs, i, m)[k] < m
  {
    if m > 0 {
      KidsAscend(fs, i, m - 1);
    }
  }

  lemma {:induction false} RootsAscend(fs: seq<Folder>, m: nat)
    requires m <= |fs|
    ensures Ascending(RootsBefore(fs, m))
    ensures forall k :: 0 <= k < |RootsBefore(fs, m)| ==> RootsBefore(fs, m)[k] < m
  {
    if m > 0 {
      RootsAscend(fs, m - 1);
    }
  }

  lemma {:induction false} TreeWellPlaced(fs: seq<Folder>, i: nat, d: nat)
    requires i < |fs| && AtDepth(fs, i, d)
    ensures WellPlaced(fs, TreeOf(fs, i, d)) && TreeOf(fs, i, d).folder == i
    decreases |fs| - d, 0
  {
    DepthBound(fs, i, d);
    KidsAtDepth(fs, i, d);
    var kids := SortBy(Kids(fs, i), Key(fs));
    ForestWellPlaced(fs, kids, d + 1);
    SortMembers(Kids(fs, i), Key(fs));
    KidsAscend(fs, i, |fs|);
    var ts := TreeOf(fs, i, d).children;
    SiblingsInOrder(fs, ts, Kids(fs, i));
    forall k | 0 <= k < |ts| ensures WellPlaced(fs, ts[k]) && fs[ts[k].folder].parent == Some(fs[i].id) {
      assert ts[k].folder == kids[k] && kids[k] in kids;
      assert ParentOf(fs, kids[k]) == Some(i);
    }
  }

  lemma {:induction false} ForestWellPlaced(fs: seq<Folder>, idx: seq<nat>, d: nat)
    requires AllAtDepth(fs, idx, d)
    ensures |Forest(fs, idx, d)| == |idx|
    ensures forall k :: 0 <= k < |idx| ==>
              WellPlaced(fs, Forest(fs, idx, d)[k]) && Forest(fs, idx, d)[k].folder == idx[k]
    decreases |fs| - d, |idx|
  {
    if idx != [] {
      ForestWellPlaced(fs, idx[..|idx| - 1], d);
      TreeWellPlaced(fs, idx[|idx| - 1], d);
    }
  }

  /** So the whole forest is sorted by (sort_order, name), and then by database order, at every
      depth. */
  lemma ForestSorted(fs: seq<Folder>)
    ensures var f := FolderForest(fs);
            && SiblingsSorted(fs, f)
            && forall k :: 0 <= k < |f| ==> WellPlaced(fs, f[k]) && fs[f[k].folder].parent == None
  {
    var roots := RootsBefore(fs, |fs|);
    RootsSorted(fs);
    SortMembers(roots, Key(fs));
    RootMembers(fs, |fs|);
    RootsAscend(fs, |fs|);
    var sorted := SortBy(roots, Key(fs));
    ForestWellPlaced(fs, sorted, 0);
    SiblingsInOrder(fs, FolderForest(fs), roots);
    forall k | 0 <= k < |sorted| ensures fs[sorted[k]].parent == None {
      assert sorted[k] in sorted;
      var m :| 0 <= m < |roots| && roots[m] == sorted[k];
    }
  }

  // ---------------------------------------------------------------- the dictionaries

  /** One entry of `folder_map`; `children` is the list that is shared and changed in place. */
  class FolderNode {
    const folder: Folder
    var children: seq<FolderNode>

    constructor (folder: Folder)
      ensures this.folder == folder && children == []
    {
      this.folder, children := folder, [];
    }
  }

  function NodeKey(): FolderNode -> Folder {
    (n: FolderNode) => n.folder
  }

  /** Node i stands for folder i. */
  ghost predicate Nodes(fs: seq<Folder>, nodes: seq<FolderNode>) {
    && |nodes| == |fs|
    && (forall i :: 0 <= i < |fs| ==> nodes[i].folder == fs[i])
    && (forall i, j :: 0 <= i < j < |nodes| ==> nodes[i] != nodes[j])
  }

  ghost predicate InRange(idx: seq<nat>, n: nat) {
    forall k :: 0 <= k < |idx| ==> idx[k] < n
  }

  ghost function At(nodes: seq<FolderNode>, idx: seq<nat>): seq<FolderNode>
    requires InRange(idx, |nodes|)
  {
    seq(|idx|, k requires 0 <= k < |idx| => nodes[idx[k]])
  }

  lemma {:induction false} InsertAt(fs: seq<Folder>, nodes: seq<FolderNode>, x: nat, idx: seq<nat>)
    requires Nodes(fs, nodes) && InRange(idx, |fs|) && x < |fs|
    ensures InRange(Insert(x, idx, Key(fs)), |fs|)
    ensures Insert(nodes[x], At(nodes, idx), NodeKey()) == At(nodes, Insert(x, idx, Key(fs)))
  {
    if idx != [] && !Leq(fs[x], fs[idx[0]]) {
      InsertAt(fs, nodes, x, idx[1..]);
      assert At(nodes, idx)[1..] == At(nodes, idx[1..]);
      assert At(nodes, [idx[0]] + Insert(x, idx[1..], Key(fs)))
          == [nodes[idx[0]]] + At(nodes, Insert(x, idx[1..], Key(fs)));
    }
  }

  /** Sorting the nodes is sorting the folders they stand for. */
  lemma {:induction false} SortAt(fs: seq<Folder>, nodes: seq<FolderNode>, idx: seq<nat>)
    requires Nodes(fs, nodes) && InRange(idx, |fs|)
    ensures InRange(SortBy(idx, Key(fs)), |fs|)
    ensures SortBy(At(nodes, idx), NodeKey()) == At(nodes, SortBy(idx, Key(fs)))
  {
    if idx != [] {
      SortAt(fs, nodes, idx[1..]);
      assert At(nodes, idx)[1..] == At(nodes, idx[1..]);
      InsertAt(fs, nodes, idx[0], SortBy(idx[1..], Key(fs)));
    }
  }

  lemma KidsInRange(fs: seq<Folder>, i: nat)
    ensures InRange(Kids(fs, i), |fs|) && InRange(SortBy(Kids(fs, i), Key(fs)), |fs|)
  {
    forall k | 0 <= k < |Kids(fs, i)| ensures Kids(fs, i)[k] < |fs| {
      assert Kids(fs, i)[k] in Kids(fs, i);
    }
    var s := SortBy(Kids(fs, i), Key(fs));
    SortMembers(Kids(fs, i), Key(fs));
    forall k | 0 <= k < |s| ensures s[k] < |fs| {
      assert s[k] in s;
    }
  }

  /** The children of folder i, in database order or sorted. */
  ghost function Children(fs: seq<Folder>, nodes: seq<FolderNode>, i: nat, sorted: bool): seq<FolderNode>
    requires |nodes| == |fs|
  {
    KidsInRange(fs, i);
    At(nodes, if sorted then SortBy(Kids(fs, i), Key(fs)) else Kids(fs, i))
  }

  /** All the lists of children. */
  ghost function Lists(nodes: seq<FolderNode>): seq<seq<FolderNode>>
    reads nodes
  {
    seq(|nodes|, i requires 0 <= i < |nodes| reads nodes => nodes[i].children)
  }

  /** Every list of children is complete, whether it has been sorted yet or not. */
  ghost predicate Attached(fs: seq<Folder>, nodes: seq<FolderNode>, lists: seq<seq<FolderNode>>)
    requires |nodes| == |fs| == |lists|
  {
    forall i :: 0 <= i < |fs| ==> lists[i] == Children(fs, nodes, i, false) || lists[i] == Children(fs, nodes, i, true)
  }

  /** The folders of `ts` have sorted children now; the others have the children they had. */
  ghost predicate SortedIn(fs: seq<Folder>, nodes: seq<FolderNode>, ts: seq<Tree>, before: seq<seq<FolderNode>>,
                           now: seq<seq<FolderNode>>)
    requires |nodes| == |fs| == |before| == |now|
  {
    forall i :: 0 <= i < |fs| ==> now[i] == if CountAll(ts, i) > 0 then Children(fs, nodes, i, true) else before[i]
  }

  lemma SortedThen(fs: seq<Folder>, nodes: seq<FolderNode>, ts: seq<Tree>, t: Tree,
                   first: seq<seq<FolderNode>>, middle: seq<seq<FolderNode>>, now: seq<seq<FolderNode>>)
    requires |nodes| == |fs| == |first| == |middle| == |now|
    requires SortedIn(fs, nodes, ts, first, middle) && SortedIn(fs, nodes, [t], middle, now)
    ensures SortedIn(fs, nodes, ts + [t], first, now)
  {
    forall i | 0 <= i < |fs| ensures CountAll(ts + [t], i) == CountAll(ts, i) + CountAll([t], i) {
      assert (ts + [t])[..|ts|] == ts;
      assert [t][..0] == [];
    }
  }

  lemma StillAttached(fs: seq<Folder>, nodes: seq<FolderNode>, ts: seq<Tree>, before: seq<seq<FolderNode>>,
                      now: seq<seq<FolderNode>>)
    requires |nodes| == |fs| == |before| == |now| && Attached(fs, nodes, before) && SortedIn(fs, nodes, ts, before, now)
    ensures Attached(fs, nodes, now)
  {
  }

  lemma ForestSnoc(fs: seq<Folder>, idx: seq<nat>, m: nat, d: nat)
    requires AllAtDepth(fs, idx, d) && m < |idx|
    ensures Forest(fs, idx[..m + 1], d) == Forest(fs, idx[..m], d) + [TreeOf(fs, idx[m], d)]
  {
    assert idx[..m + 1][..m] == idx[..m];
  }

  method SortFolders(folders: seq<FolderNode>, ghost fs: seq<Folder>, ghost nodes: seq<FolderNode>,
                     ghost idx: seq<nat>, ghost d: nat)
    returns (sorted: seq<FolderNode>)
    requires Nodes(fs, nodes) && Attached(fs, nodes, Lists(nodes)) && AllAtDepth(fs, idx, d) &&
             folders == At(nodes, idx)
    modifies nodes
    ensures AllAtDepth(fs, SortBy(idx, Key(fs)), d)
    ensures sorted == At(nodes, SortBy(idx, Key(fs)))
    ensures SortedIn(fs, nodes, Forest(fs, SortBy(idx, Key(fs)), d), old(Lists(nodes)), Lists(nodes))
    decreases |fs| - d, 1
  {
    sorted := SortBy(folders, NodeKey());
    ghost var order := SortBy(idx, Key(fs));
    SortAt(fs, nodes, idx);
    SortedAtDepth(fs, idx, d);
    ghost var first := Lists(nodes);
    for m := 0 to |sorted|
      invariant SortedIn(fs, nodes, Forest(fs, order[..m], d), first, Lists(nodes))
    {
      ghost var middle := Lists(nodes);
      StillAttached(fs, nodes, Forest(fs, order[..m], d), first, middle);
      SortChildren(sorted[m], fs, nodes, order[m], d);
      SortedThen(fs, nodes, Forest(fs, order[..m], d), TreeOf(fs, order[m], d), first, middle, Lists(nodes));
      ForestSnoc(fs, order, m, d);
    }
    assert order[..|sorted|] == order;
  }

  /** The children of one folder, if it has any, are sorted in place of its list. */
  method SortChildren(folder: FolderNode, ghost fs: seq<Folder>, ghost nodes: seq<FolderNode>, ghost i: nat,
                      ghost d: nat)
    requires Nodes(fs, nodes) && Attached(fs, nodes, Lists(nodes)) && i < |fs| && AtDepth(fs, i, d) &&
             folder == nodes[i]
    modifies nodes
    ensures SortedIn(fs, nodes, [TreeOf(fs, i, d)], old(Lists(nodes)), Lists(nodes))
    decreases |fs| - d, 0
  {
    assert Lists(nodes)[i] == folder.children;
    if folder.children != [] {
      DepthBound(fs, i, d);
      ghost var before := Lists(nodes);
      ghost var kids := CurrentKids(fs, nodes, i, d, folder.children);
      var children := SortFolders(folder.children, fs, nodes, kids, d + 1);
      ChildrenStored(fs, nodes, i, d, before, Lists(nodes));
      Store(folder, children, nodes, i);
    } else {
      Childless(fs, nodes, i, d, Lists(nodes));
    }
  }

  method Store(folder: FolderNode, children: seq<FolderNode>, ghost nodes: seq<FolderNode>, ghost i: nat)
    requires i < |nodes| && folder == nodes[i] && forall j, k :: 0 <= j < k < |nodes| ==> nodes[j] != nodes[k]
    modifies folder
    ensures Lists(nodes) == old(Lists(nodes))[i := children]
  {
    folder.children := children;
  }

  /** What the list of folder i stands for, and that sorting it gives the sorted children. */
  lemma CurrentKids(fs: seq<Folder>, nodes: seq<FolderNode>, i: nat, d: nat, children: seq<FolderNode>)
    returns (idx: seq<nat>)
    requires Nodes(fs, nodes) && i < |fs| && AtDepth(fs, i, d)
    requires children == Children(fs, nodes, i, false) || children == Children(fs, nodes, i, true)
    ensures AllAtDepth(fs, idx, d + 1) && children == At(nodes, idx)
    ensures AllAtDepth(fs, SortBy(idx, Key(fs)), d + 1)
    ensures At(nodes, SortBy(idx, Key(fs))) == Children(fs, nodes, i, true)
    ensures Forest(fs, SortBy(idx, Key(fs)), d + 1) == TreeOf(fs, i, d).children
  {
    KidsAtDepth(fs, i, d);
    SortTwice(fs, i);
    idx := if children == Children(fs, nodes, i, false) then Kids(fs, i) else SortBy(Kids(fs, i), Key(fs));
  }

  lemma CountSingle(t: Tree, j: nat)
    ensures CountAll([t], j) == (if t.folder == j then 1 else 0) + CountAll(t.children, j)
  {
    assert [t][..0] == [];
  }

  lemma ChildrenStored(fs: seq<Folder>, nodes: seq<FolderNode>, i: nat, d: nat,
                       before: seq<seq<FolderNode>>, below: seq<seq<FolderNode>>)
    requires i < |fs| && AtDepth(fs, i, d) && |nodes| == |fs| == |before| == |below|
    requires SortedIn(fs, nodes, TreeOf(fs, i, d).children, before, below)
    ensures SortedIn(fs, nodes, [TreeOf(fs, i, d)], before, below[i := Children(fs, nodes, i, true)])
  {
    var t := TreeOf(fs, i, d);
    forall j: nat ensures CountAll([t], j) == (if i == j then 1 else 0) + CountAll(t.children, j) {
      CountSingle(t, j);
    }
  }

  lemma Childless(fs: seq<Folder>, nodes: seq<FolderNode>, i: nat, d: nat, lists: seq<seq<FolderNode>>)
    requires i < |fs| && AtDepth(fs, i, d) && |nodes| == |fs| == |lists| && Attached(fs, nodes, lists) && lists[i] == []
    ensures SortedIn(fs, nodes, [TreeOf(fs, i, d)], lists, lists)
  {
    KidsAtDepth(fs, i, d);
    SortMembers(Kids(fs, i), Key(fs));
    assert |Children(fs, nodes, i, true)| == |Children(fs, nodes, i, false)| == |Kids(fs, i)|;
    var t := TreeOf(fs, i, d);
    assert SortBy(Kids(fs, i), Key(fs)) == [];
    assert Forest(fs, SortBy(Kids(fs, i), Key(fs)), d + 1) == [];
    assert t.children == [];
    forall j: nat ensures CountAll([t], j) == if i == j then 1 else 0 {
      CountSingle(t, j);
    }
  }

  lemma SortTwice(fs: seq<Folder>, i: nat)
    ensures SortBy(SortBy(Kids(fs, i), Key(fs)), Key(fs)) == SortBy(Kids(fs, i), Key(fs))
  {
    SortSorted(Kids(fs, i), Key(fs));
    SortFixed(SortBy(Kids(fs, i), Key(fs)), Key(fs));
  }

  /** The dictionaries reachable from `node` are the tree, with these very children lists. */
  ghost predicate Represents(nodes: seq<FolderNode>, node: FolderNode, t: Tree)
    reads nodes
    decreases t
  {
    && t.folder < |nodes| && node == nodes[t.folder] && |node.children| == |t.children|
    && forall k :: 0 <= k < |t.children| ==> Represents(nodes, node.children[k], t.children[k])
  }

  ghost predicate AllRepresent(nodes: seq<FolderNode>, roots: seq<FolderNode>, ts: seq<Tree>)
    reads nodes
  {
    |roots| == |ts| && forall k :: 0 <= k < |ts| ==> Represents(nodes, roots[k], ts[k])
  }

  ghost predicate AreSorted(fs: seq<Folder>, nodes: seq<FolderNode>, ts: seq<Tree>)
    requires |nodes| == |fs|
    reads nodes
  {
    forall j :: 0 <= j < |fs| && CountAll(ts, j) > 0 ==> nodes[j].children == Children(fs, nodes, j, true)
  }

  /** Where the children lists are sorted, the nodes represent the tree. */
  lemma {:induction false} SortedRepresents(fs: seq<Folder>, nodes: seq<FolderNode>, i: nat, d: nat)
    requires |nodes| == |fs| && i < |fs| && AtDepth(fs, i, d)
    requires AreSorted(fs, nodes, [TreeOf(fs, i, d)])
    ensures Represents(nodes, nodes[i], TreeOf(fs, i, d))
    decreases |fs| - d, 0
  {
    DepthBound(fs, i, d);
    KidsAtDepth(fs, i, d);
    var t := TreeOf(fs, i, d);
    forall j: nat ensures CountAll([t], j) == (if i == j then 1 else 0) + CountAll(t.children, j) {
      CountSingle(t, j);
    }
    assert CountAll([t], i) > 0;
    ForestRepresents(fs, nodes, SortBy(Kids(fs, i), Key(fs)), d + 1);
  }

  lemma {:induction false} ForestRepresents(fs: seq<Folder>, nodes: seq<FolderNode>, idx: seq<nat>, d: nat)
    requires |nodes| == |fs| && AllAtDepth(fs, idx, d)
    requires AreSorted(fs, nodes, Forest(fs, idx, d))
    ensures AllRepresent(nodes, At(nodes, idx), Forest(fs, idx, d))
    decreases |fs| - d, |idx|
  {
    if idx != [] {
      var before, last := idx[..|idx| - 1], idx[|idx| - 1];
      AreSortedParts(fs, nodes, Forest(fs, before, d), TreeOf(fs, last, d));
      ForestRepresents(fs, nodes, before, d);
      SortedRepresents(fs, nodes, last, d);
      RepresentSnoc(nodes, At(nodes, before), Forest(fs, before, d), nodes[last], TreeOf(fs, last, d));
      assert At(nodes, idx) == At(nodes, before) + [nodes[last]];
    }
  }

  lemma AreSortedParts(fs: seq<Folder>, nodes: seq<FolderNode>, ts: seq<Tree>, t: Tree)
    requires |nodes| == |fs| && AreSorted(fs, nodes, ts + [t])
    ensures AreSorted(fs, nodes, ts) && AreSorted(fs, nodes, [t])
  {
    forall j: nat ensures CountAll(ts + [t], j) == CountAll(ts, j) + CountAll([t], j) {
      assert (ts + [t])[..|ts|] == ts && [t][..0] == [];
    }
  }

  lemma RepresentSnoc(nodes: seq<FolderNode>, roots: seq<FolderNode>, ts: seq<Tree>, root: FolderNode, t: Tree)
    requires AllRepresent(nodes, roots, ts) && Represents(nodes, root, t)
    ensures AllRepresent(nodes, roots + [root], ts + [t])
  {
  }

  method GetFolderTree(folders: seq<Folder>) returns (roots: seq<FolderNode>, ghost nodes: seq<FolderNode>)
    requires UniqueIds(folders)
    ensures fresh(nodes) && Nodes(folders, nodes)
    ensures AllRepresent(nodes, roots, FolderForest(folders))
  {
    var folderMap;
    folderMap, nodes := MakeNodes(folders);
    roots := Attach(folders, folderMap, nodes);
    KidsAreAll(folders, nodes, Lists(nodes));
    RootsSorted(folders);
    ghost var idx := RootsBefore(folders, |folders|);
    roots := SortFolders(roots, folders, nodes, idx, 0);
    assert forall j :: 0 <= j < |nodes| ==> nodes[j].children == Lists(nodes)[j];
    ForestRepresents(folders, nodes, SortBy(idx, Key(folders)), 0);
  }

  /** `folder_map` holds exactly the nodes, under their ids. */
  ghost predicate Mapped(fs: seq<Folder>, nodes: seq<FolderNode>, folderMap: map<string, FolderNode>)
    requires |nodes| == |fs|
  {
    && (forall i :: 0 <= i < |fs| ==> fs[i].id in folderMap && folderMap[fs[i].id] == nodes[i])
    && (forall id :: id in folderMap ==> exists i :: 0 <= i < |fs| && fs[i].id == id)
  }

  method MakeNodes(folders: seq<Folder>) returns (folderMap: map<string, FolderNode>, ghost nodes: seq<FolderNode>)
    requires UniqueIds(folders)
    ensures fresh(nodes) && Nodes(folders, nodes) && Mapped(folders, nodes, folderMap)
    ensures forall i :: 0 <= i < |nodes| ==> nodes[i].children == []
  {
    nodes, folderMap := [], map[];
    for i := 0 to |folders|
      invariant fresh(nodes) && Nodes(folders[..i], nodes)
      invariant forall j :: 0 <= j < i ==> nodes[j].children == []
      invariant Mapped(folders[..i], nodes, folderMap)
    {
      var node := new FolderNode(folders[i]);
      nodes := nodes + [node];
      folderMap := folderMap[folders[i].id := node];
    }
    assert folders[..|folders|] == folders;
  }

  /** The lists of children once the first m folders are attached. */
  ghost predicate KidsAre(fs: seq<Folder>, nodes: seq<FolderNode>, lists: seq<seq<FolderNode>>, m: nat)
    requires |nodes| == |fs| && m <= |fs|
  {
    |lists| == |fs| && forall i :: 0 <= i < |fs| ==> lists[i] == KidNodes(fs, nodes, i, m)
  }

  ghost function KidNodes(fs: seq<Folder>, nodes: seq<FolderNode>, i: nat, m: nat): seq<FolderNode>
    requires |nodes| == |fs| && m <= |fs|
  {
    KidsBeforeInRange(fs, i, m);
    At(nodes, KidsBefore(fs, i, m))
  }

  lemma KidsBeforeInRange(fs: seq<Folder>, i: nat, m: nat)
    requires m <= |fs|
    ensures InRange(KidsBefore(fs, i, m), |fs|)
  {
    forall k | 0 <= k < |KidsBefore(fs, i, m)| ensures KidsBefore(fs, i, m)[k] < |fs| {
      assert KidsBefore(fs, i, m)[k] in KidsBefore(fs, i, m);
    }
  }

  lemma KidNodesStep(fs: seq<Folder>, nodes: seq<FolderNode>, i: nat, m: nat)
    requires |nodes| == |fs| && m < |fs|
    ensures KidNodes(fs, nodes, i, m + 1)
         == KidNodes(fs, nodes, i, m) + if ParentOf(fs, m) == Some(i) then [nodes[m]] else []
  {
    KidsBeforeInRange(fs, i, m);
    KidsBeforeInRange(fs, i, m + 1);
  }

  lemma KidsAreStep(fs: seq<Folder>, nodes: seq<FolderNode>, lists: seq<seq<FolderNode>>, m: nat)
    requires |nodes| == |fs| && m < |fs| && KidsAre(fs, nodes, lists, m)
    ensures ParentOf(fs, m).None? ==> KidsAre(fs, nodes, lists, m + 1)
    ensures ParentOf(fs, m).Some? ==>
              var parent := ParentOf(fs, m).value;
              KidsAre(fs, nodes, lists[parent := lists[parent] + [nodes[m]]], m + 1)
  {
    forall i: nat | i < |fs|
      ensures KidNodes(fs, nodes, i, m + 1) == lists[i] + if ParentOf(fs, m) == Some(i) then [nodes[m]] else []
    {
      KidNodesStep(fs, nodes, i, m);
    }
  }

  lemma KidsAreAll(fs: seq<Folder>, nodes: seq<FolderNode>, lists: seq<seq<FolderNode>>)
    requires |nodes| == |fs| && KidsAre(fs, nodes, lists, |fs|)
    ensures Attached(fs, nodes, lists)
  {
    forall i | 0 <= i < |fs| ensures lists[i] == Children(fs, nodes, i, false) {
      assert lists[i] == KidNodes(fs, nodes, i, |fs|);
    }
  }

  lemma ParentFound(fs: seq<Folder>, nodes: seq<FolderNode>, folderMap: map<string, FolderNode>, m: nat)
    requires UniqueIds(fs) && Nodes(fs, nodes) && Mapped(fs, nodes, folderMap) && m < |fs| && fs[m].parent.Some?
    ensures fs[m].parent.value in folderMap <==> ParentOf(fs, m).Some?
    ensures ParentOf(fs, m).Some? ==> folderMap[fs[m].parent.value] == nodes[ParentOf(fs, m).value]
  {
  }

  ghost function RootNodes(fs: seq<Folder>, nodes: seq<FolderNode>, m: nat): seq<FolderNode>
    requires |nodes| == |fs| && m <= |fs|
  {
    RootMembers(fs, m);
    At(nodes, RootsBefore(fs, m))
  }

  method Attach(folders: seq<Folder>, folderMap: map<string, FolderNode>, ghost nodes: seq<FolderNode>)
    returns (roots: seq<FolderNode>)
    requires UniqueIds(folders) && Nodes(folders, nodes) && Mapped(folders, nodes, folderMap)
    requires forall i :: 0 <= i < |nodes| ==> nodes[i].children == []
    modifies nodes
    ensures roots == RootNodes(folders, nodes, |folders|)
    ensures KidsAre(folders, nodes, Lists(nodes), |folders|)
  {
    roots := [];
    for m := 0 to |folders|
      invariant roots == RootNodes(folders, nodes, m)
      invariant KidsAre(folders, nodes, Lists(nodes), m)
    {
      if folders[m].parent.None? {
        KidsAreStep(folders, nodes, Lists(nodes), m);
        roots := roots + [folderMap[folders[m].id]];
      } else {
        AttachOne(folders, folderMap, m, nodes);
      }
    }
  }

  /** Appends folder m to the list of its parent, if that exists. */
  method AttachOne(folders: seq<Folder>, folderMap: map<string, FolderNode>, m: nat, ghost nodes: seq<FolderNode>)
    requires UniqueIds(folders) && Nodes(folders, nodes) && Mapped(folders, nodes, folderMap)
    requires m < |folders| && folders[m].parent.Some? && KidsAre(folders, nodes, Lists(nodes), m)
    modifies nodes
    ensures KidsAre(folders, nodes, Lists(nodes), m + 1)
  {
    KidsAreStep(folders, nodes, Lists(nodes), m);
    ParentFound(folders, nodes, folderMap, m);
    var parent := folders[m].parent.value;
    if parent in folderMap {
      ghost var i := ParentOf(folders, m).value;
      assert Lists(nodes)[i] == folderMap[parent].children;
      Store(folderMap[parent], folderMap[parent].children + [folderMap[folders[m].id]], nodes, i);
    }
  }
}

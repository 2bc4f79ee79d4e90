/** The dialog template: a list of control sets kept in path order by insertion. */
module ControlBox {
  import opened Bytes

  const INT_MAX := 0x7FFF_FFFF

  /** A path whose elements an int can count. */
  type Path = p: string | |p| < INT_MAX - 1 witness ""

  // What ctrl_path_compare counts.

  /** The '/'-separated elements of a path; there is always one. */
  function Elements(p: string): (es: seq<string>)
    ensures 0 < |es| <= |p| + 1
  {
    if p == "" then [""]
    else
      var rest := Elements(p[1..]);
      if p[0] == '/' then [""] + rest else [[p[0]] + rest[0]] + rest[1..]
  }

  /** How many leading elements two lists share. */
  function Common(a: seq<string>, b: seq<string>): (n: nat)
    ensures n <= |a| && n <= |b|
  {
    if a == [] || b == [] || a[0] != b[0] then 0 else 1 + Common(a[1..], b[1..])
  }

  /** The matching elements of two paths, or INT_MAX if they are identical. */
  function Closeness(p: Path, q: Path): (c: nat)
    ensures c <= INT_MAX && (c == INT_MAX <==> p == q)
  {
    if p == q then INT_MAX else Common(Elements(p), Elements(q))
  }

  lemma {:induction false} CommonIsPrefix(a: seq<string>, b: seq<string>)
    ensures a[..Common(a, b)] == b[..Common(a, b)]
    ensures Common(a, b) < |a| && Common(a, b) < |b| ==> a[Common(a, b)] != b[Common(a, b)]
  {
    if a != [] && b != [] && a[0] == b[0] {
      CommonIsPrefix(a[1..], b[1..]);
      var n := Common(a[1..], b[1..]);
      assert a[..n + 1] == [a[0]] + a[1..][..n] && b[..n + 1] == [b[0]] + b[1..][..n];
    }
  }

  lemma {:induction false} PrefixIsCommon(a: seq<string>, b: seq<string>, n: nat)
    requires n <= |a| && n <= |b| && a[..n] == b[..n]
    ensures Common(a, b) >= n
  {
    if n > 0 {
      assert a[0] == a[..n][0] == b[..n][0] == b[0];
      assert a[1..][..n - 1] == a[..n][1..] && b[1..][..n - 1] == b[..n][1..];
      PrefixIsCommon(a[1..], b[1..], n - 1);
    }
  }

  lemma ClosenessSymmetric(p: Path, q: Path)
    ensures Closeness(p, q) == Closeness(q, p)
  {
    var a, b := Elements(p), Elements(q);
    CommonIsPrefix(a, b);
    CommonIsPrefix(b, a);
    PrefixIsCommon(a, b, Common(b, a));
    PrefixIsCommon(b, a, Common(a, b));
  }

  function Min(a: nat, b: nat): nat {
    if a < b then a else b
  }

  /** Two paths are at least as close to each other as the less close of them is to a third. */
  lemma ClosenessIsUltrametric(p: Path, q: Path, r: Path)
    ensures Closeness(p, r) >= Min(Closeness(p, q), Closeness(q, r))
  {
    if p != q && q != r && p != r {
      var a, b, c := Elements(p), Elements(q), Elements(r);
      var n := Min(Common(a, b), Common(b, c));
      CommonIsPrefix(a, b);
      CommonIsPrefix(b, c);
      assert a[..n] == a[..Common(a, b)][..n] == b[..n] == b[..Common(b, c)][..n] == c[..n];
      PrefixIsCommon(a, c, n);
    }
  }

  // The loop.

  /** What is left to compare after one character that both paths share. */
  lemma CommonAfterChar(p: string, q: string)
    requires p != "" && q != "" && p[0] == q[0]
    ensures Common(Elements(p), Elements(q))
         == (if p[0] == '/' then 1 else 0) + Common(Elements(p[1..]), Elements(q[1..]))
  {
    var a, b := Elements(p[1..]), Elements(q[1..]);
    if p[0] == '/' {
      assert ([""] + a)[1..] == a && ([""] + b)[1..] == b;
    } else {
      var a', b' := [[p[0]] + a[0]] + a[1..], [[q[0]] + b[0]] + b[1..];
      assert a'[1..] == a[1..] && b'[1..] == b[1..];
      assert a'[0] == b'[0] <==> a[0] == b[0] by {
        assert a'[0][1..] == a[0] && b'[0][1..] == b[0];
      }
    }
  }

  predicate AtEnd(p: string) {
    p == "" || p[0] == '/'
  }

  lemma FirstElement(p: string)
    ensures AtEnd(p) <==> Elements(p)[0] == ""
    ensures !AtEnd(p) ==> Elements(p)[0][0] == p[0]
  {
  }

  /** Where the paths differ, one more element matches exactly if both stand at the end of one. */
  lemma CommonAtMismatch(p: string, q: string)
    requires p != "" || q != ""
    requires p != "" && q != "" ==> p[0] != q[0]
    ensures Common(Elements(p), Elements(q)) == if AtEnd(p) && AtEnd(q) then 1 else 0
  {
    var a, b := Elements(p), Elements(q);
    FirstElement(p);
    FirstElement(q);
    if AtEnd(p) && AtEnd(q) {
      assert p == "" || q == "";
      assert a[0] == "" == b[0];
      assert a[1..] == [] || b[1..] == [];
    } else {
      assert a[0] != b[0];
    }
  }

  /** ctrl_path_compare. */
  method PathCompare(p1: Path, p2: Path) returns (i: nat)
    ensures i == Closeness(p1, p2)
  {
    hide Elements, Common;
    i := 0;
    var k := 0;
    while k < |p1| || k < |p2|
      invariant 0 <= k <= |p1| && k <= |p2| && p1[..k] == p2[..k]
      invariant Common(Elements(p1), Elements(p2)) == i + Common(Elements(p1[k..]), Elements(p2[k..]))
      decreases |p1| - k
    {
      ghost var i0 := i;
      var end1 := k == |p1| || p1[k] == '/';
      var end2 := k == |p2| || p2[k] == '/';
      if end1 && end2 {
        i := i + 1;
      }
      if k == |p1| || k == |p2| || p1[k] != p2[k] {
        CommonAtMismatch(p1[k..], p2[k..]);
        assert p1 != p2;
        return;
      }
      CommonAfterChar(p1[k..], p2[k..]);
      assert p1[k..][1..] == p1[k + 1..] && p2[k..][1..] == p2[k + 1..];
      k := k + 1;
    }
    assert p1 == p1[..k] && p2 == p2[..k];
    return INT_MAX;
  }

  // Lists of paths in order.

  /** Of three paths in order, the outer two are the least close. */
  ghost predicate InOrder(p: Path, q: Path, r: Path) {
    Closeness(p, r) <= Closeness(p, q) && Closeness(p, r) <= Closeness(q, r)
  }

  ghost predicate Ordered(ps: seq<Path>) {
    forall i, j, k :: 0 <= i < j < k < |ps| ==> InOrder(ps[i], ps[j], ps[k])
  }

  /** The sets with one path stand together. */
  lemma SamePathTogether(ps: seq<Path>, i: nat, j: nat, k: nat)
    requires Ordered(ps) && i <= j <= k < |ps| && ps[i] == ps[k]
    ensures ps[j] == ps[i]
  {
    if i < j < k {
      assert InOrder(ps[i], ps[j], ps[k]);
    }
  }

  ghost predicate Under(p: Path, prefix: Path) {
    Elements(prefix) <= Elements(p)
  }

  /** So do the sets under one path prefix. */
  lemma PrefixTogether(ps: seq<Path>, prefix: Path, i: nat, j: nat, k: nat)
    requires Ordered(ps) && i <= j <= k < |ps| && Under(ps[i], prefix) && Under(ps[k], prefix)
    ensures Under(ps[j], prefix)
  {
    if i < j < k && ps[i] != ps[j] {
      assert InOrder(ps[i], ps[j], ps[k]);
      hide Elements, Common;
      PrefixBetween(Elements(ps[i]), Elements(ps[j]), Elements(ps[k]), Elements(prefix));
    }
  }

  lemma PrefixBetween(a: seq<string>, b: seq<string>, c: seq<string>, prefix: seq<string>)
    requires prefix <= a && prefix <= c && Common(a, c) <= Common(a, b)
    ensures prefix <= b
  {
    var n := |prefix|;
    PrefixIsCommon(a, c, n);
    CommonIsPrefix(a, b);
    assert b[..n] == b[..Common(a, b)][..n] == a[..n];
  }

  /** Along an ordered list, closeness to any path rises and then falls. */
  lemma NoValley(ps: seq<Path>, x: Path, i: nat, j: nat, k: nat)
    requires Ordered(ps) && i <= j <= k < |ps|
    ensures Closeness(x, ps[j]) >= Min(Closeness(x, ps[i]), Closeness(x, ps[k]))
  {
    if i < j < k {
      ClosenessSymmetric(x, ps[i]);
      ClosenessIsUltrametric(ps[i], x, ps[k]);
      assert InOrder(ps[i], ps[j], ps[k]);
      ClosenessIsUltrametric(x, ps[i], ps[j]);
    }
  }

  /** Closeness to x does not fall before n, and falls at n unless n starts the sets with path x. */
  ghost predicate InsertionPoint(ps: seq<Path>, x: Path, n: nat) {
    && n <= |ps|
    && (forall i, j :: 0 <= i < j < n ==> Closeness(x, ps[i]) <= Closeness(x, ps[j]))
    && (n < |ps| ==> ps[n] == x || (n > 0 && Closeness(x, ps[n]) < Closeness(x, ps[n - 1])))
  }

  /** After the insertion point, closeness does not rise. */
  lemma FallsAfter(ps: seq<Path>, x: Path, n: nat, j: nat, k: nat)
    requires Ordered(ps) && InsertionPoint(ps, x, n) && n <= j <= k < |ps|
    ensures Closeness(x, ps[k]) <= Closeness(x, ps[j])
  {
    NoValley(ps, x, n, j, k);
    if ps[n] != x {
      NoValley(ps, x, n - 1, j, k);
      NoValley(ps, x, n - 1, n, j);
    }
  }

  /** Across the insertion point, two sets are no closer to each other than to x. */
  lemma AcrossPoint(ps: seq<Path>, x: Path, n: nat, i: nat, k: nat)
    requires Ordered(ps) && InsertionPoint(ps, x, n) && i < n <= k < |ps|
    ensures InOrder(ps[i], x, ps[k])
  {
    var c := Closeness(ps[i], ps[k]);
    ClosenessSymmetric(x, ps[i]);
    if c > Closeness(x, ps[i]) || c > Closeness(x, ps[k]) {
      ClosenessIsUltrametric(x, ps[i], ps[k]);
      ClosenessSymmetric(ps[i], ps[k]);
      ClosenessIsUltrametric(x, ps[k], ps[i]);
      assert Closeness(x, ps[i]) == Closeness(x, ps[k]) < c;
      ConstantBetween(ps, x, i, n - 1, k);
      ConstantBetween(ps, x, i, n, k);
      assert false;
    }
  }

  lemma ConstantBetween(ps: seq<Path>, x: Path, i: nat, j: nat, k: nat)
    requires Ordered(ps) && i <= j <= k < |ps|
    requires Closeness(x, ps[i]) == Closeness(x, ps[k]) < Closeness(ps[i], ps[k])
    ensures Closeness(x, ps[j]) == Closeness(x, ps[i])
  {
    if i < j < k {
      assert InOrder(ps[i], ps[j], ps[k]);
      ClosenessSymmetric(ps[i], ps[j]);
      ClosenessIsUltrametric(x, ps[i], ps[j]);
      ClosenessIsUltrametric(x, ps[j], ps[i]);
    }
  }

  /** Two sets on the same side of the insertion point, as seen from the path put there. */
  lemma BeforePoint(ps: seq<Path>, x: Path, n: nat, i: nat, j: nat)
    requires Ordered(ps) && InsertionPoint(ps, x, n) && i < j < n
    ensures InOrder(ps[i], ps[j], x)
  {
    ClosenessSymmetric(x, ps[i]);
    ClosenessSymmetric(x, ps[j]);
    ClosenessIsUltrametric(ps[i], x, ps[j]);
  }

  lemma AfterPoint(ps: seq<Path>, x: Path, n: nat, j: nat, k: nat)
    requires Ordered(ps) && InsertionPoint(ps, x, n) && n <= j < k < |ps|
    ensures InOrder(x, ps[j], ps[k])
  {
    FallsAfter(ps, x, n, j, k);
    ClosenessSymmetric(x, ps[j]);
    ClosenessIsUltrametric(ps[j], x, ps[k]);
  }

  /** Element i of the list with x put in at n. */
  function At<T>(s: seq<T>, x: T, n: nat, i: nat): T
    requires n <= |s| && i <= |s|
  {
    if i < n then s[i] else if i == n then x else s[i - 1]
  }

  function Inserted<T>(s: seq<T>, x: T, n: nat): (r: seq<T>)
    requires n <= |s|
    ensures |r| == |s| + 1
    ensures forall i :: 0 <= i < |r| ==> r[i] == At(s, x, n, i)
  {
    s[..n] + [x] + s[n..]
  }

  lemma AtOthers(ps: seq<Path>, x: Path, n: nat, i: nat, j: nat, k: nat)
    requires Ordered(ps) && n <= |ps| && i < j < k <= |ps| && i != n && j != n && k != n
    ensures InOrder(At(ps, x, n, i), At(ps, x, n, j), At(ps, x, n, k))
  {
    assert InOrder(ps[if i < n then i else i - 1], ps[if j < n then j else j - 1], ps[if k < n then k else k - 1]);
  }

  lemma InsertedInOrder(ps: seq<Path>, x: Path, n: nat, i: nat, j: nat, k: nat)
    requires Ordered(ps) && InsertionPoint(ps, x, n) && i < j < k <= |ps|
    ensures InOrder(At(ps, x, n, i), At(ps, x, n, j), At(ps, x, n, k))
  {
    hide InOrder, Ordered;
    if i == n {
      AfterPoint(ps, x, n, j - 1, k - 1);
    } else if j == n {
      AcrossPoint(ps, x, n, i, k - 1);
    } else if k == n {
      BeforePoint(ps, x, n, i, j);
    } else {
      AtOthers(ps, x, n, i, j, k);
    }
  }

  /** Inserting there keeps the order. */
  lemma InsertKeepsOrder(ps: seq<Path>, x: Path, n: nat)
    requires Ordered(ps) && InsertionPoint(ps, x, n)
    ensures Ordered(Inserted(ps, x, n))
  {
    var qs := Inserted(ps, x, n);
    hide Closeness, InsertionPoint, Inserted;
    forall i, j, k | 0 <= i < j < k < |qs|
      ensures InOrder(qs[i], qs[j], qs[k])
    {
      InsertedInOrder(ps, x, n, i, j, k);
    }
  }

  // The box on values: what each call makes of the list of sets.

  datatype Info = Info(path: Path, name: Option<string>, title: Option<string>)

  function PathsOf(v: seq<Info>): (ps: seq<Path>)
    ensures |ps| == |v| && forall i :: 0 <= i < |v| ==> ps[i] == v[i].path
  {
    seq(|v|, i requires 0 <= i < |v| => v[i].path)
  }

  /** Where the search of ctrl_find_set ends: an exact match, if one is wanted, or a fall in closeness. */
  predicate StopsAt(v: seq<Info>, x: Path, start: bool, i: nat)
    requires i < |v|
  {
    (start && v[i].path == x) || (i > 0 && Closeness(x, v[i].path) < Closeness(x, v[i - 1].path))
  }

  function FirstStop(v: seq<Info>, x: Path, start: bool, i: nat): (n: nat)
    requires i <= |v|
    ensures i <= n <= |v| && (n < |v| ==> StopsAt(v, x, start, n))
    ensures forall j :: i <= j < n ==> !StopsAt(v, x, start, j)
    decreases |v| - i
  {
    if i == |v| || StopsAt(v, x, start, i) then i else FirstStop(v, x, start, i + 1)
  }

  lemma StopStep(v: seq<Info>, x: Path, start: bool, i: nat)
    requires i <= |v|
    ensures FirstStop(v, x, start, i) == if i == |v| || StopsAt(v, x, start, i) then i else FirstStop(v, x, start, i + 1)
  {
  }

  /** The first set from `i` on whose path is not x. */
  function BlockEnd(v: seq<Info>, x: Path, i: nat): (n: nat)
    requires i <= |v|
    ensures i <= n <= |v| && (n < |v| ==> v[n].path != x)
    ensures forall j :: i <= j < n ==> v[j].path == x
    decreases |v| - i
  {
    if i == |v| || v[i].path != x then i else BlockEnd(v, x, i + 1)
  }

  predicate Is(v: Info, x: Path, name: string) {
    v.path == x && v.name == Some(name)
  }

  /** The first set of that name in the run of sets with path x that starts at `i`. */
  function NamedIn(v: seq<Info>, x: Path, name: string, i: nat): (n: Option<nat>)
    requires i <= |v|
    ensures n.Some? ==> i <= n.value < |v| && Is(v[n.value], x, name)
    ensures n.None? ==> forall j :: i <= j < BlockEnd(v, x, i) ==> !Is(v[j], x, name)
    decreases |v| - i
  {
    if i == |v| || v[i].path != x then None
    else if v[i].name == Some(name) then Some(i)
    else NamedIn(v, x, name, i + 1)
  }

  datatype Call = SetTitle(path: Path, title: string) | GetSet(path: Path, name: string, boxtitle: Option<string>)

  function Apply(v: seq<Info>, c: Call): seq<Info> {
    var n := FirstStop(v, c.path, true, 0);
    if c.SetTitle? then Inserted(v, Info(c.path, None, Some(c.title)), n)
    else if NamedIn(v, c.path, c.name, n).Some? then v
    else Inserted(v, Info(c.path, Some(c.name), c.boxtitle), BlockEnd(v, c.path, n))
  }

  /** The box after a run of calls on a new one. */
  function Build(calls: seq<Call>): seq<Info> {
    if calls == [] then [] else Apply(Build(calls[..|calls| - 1]), calls[|calls| - 1])
  }

  /** No two sets share a path and a name. */
  ghost predicate NamesUnique(v: seq<Info>) {
    forall i, j, name :: 0 <= i < |v| && 0 <= j < |v| && Is(v[i], v[j].path, name) && Is(v[j], v[j].path, name) ==> i == j
  }

  ghost predicate Good(v: seq<Info>) {
    Ordered(PathsOf(v)) && NamesUnique(v)
  }

  /** Before the search stops, closeness never falls. */
  lemma {:induction false} RisesBefore(v: seq<Info>, x: Path, start: bool, n: nat, i: nat, j: nat)
    requires i <= j < n <= |v| && forall k :: 0 <= k < n ==> !StopsAt(v, x, start, k)
    ensures Closeness(x, v[i].path) <= Closeness(x, v[j].path)
    decreases j
  {
    if i < j {
      RisesBefore(v, x, start, n, i, j - 1);
      assert !StopsAt(v, x, start, j);
    }
  }

  /** ctrl_find_set finds the first exact match, if there is one. */
  lemma FindsFirstMatch(v: seq<Info>, x: Path, m: nat)
    requires Ordered(PathsOf(v)) && m < |v| && v[m].path == x
    ensures var n := FirstStop(v, x, true, 0);
            && n <= m && v[n].path == x
            && forall i :: 0 <= i < n ==> v[i].path != x
  {
    var n := FirstStop(v, x, true, 0);
    assert StopsAt(v, x, true, m);
    assert Closeness(x, x) == INT_MAX;
    if v[n].path != x {
      NoValley(PathsOf(v), x, n - 1, n, m);
    }
    forall i | 0 <= i < n
      ensures v[i].path != x
    {
      assert !StopsAt(v, x, true, i);
    }
  }

  /** Both places where the calls insert are insertion points. */
  lemma StopIsInsertionPoint(v: seq<Info>, x: Path)
    requires Ordered(PathsOf(v))
    ensures InsertionPoint(PathsOf(v), x, FirstStop(v, x, true, 0))
    ensures InsertionPoint(PathsOf(v), x, BlockEnd(v, x, FirstStop(v, x, true, 0)))
  {
    var ps := PathsOf(v);
    var n := FirstStop(v, x, true, 0);
    var e := BlockEnd(v, x, n);
    hide Closeness, FirstStop, BlockEnd;
    forall i, j | 0 <= i < j < n
      ensures Closeness(x, ps[i]) <= Closeness(x, ps[j])
    {
      RisesBefore(v, x, true, n, i, j);
    }
    assert Closeness(x, x) == INT_MAX;
    if n < e {
      forall i, j | 0 <= i < j < e
        ensures Closeness(x, ps[i]) <= Closeness(x, ps[j])
      {
      }
    }
  }

  /** The name is looked for in all the sets with that path. */
  lemma NamedIsFound(v: seq<Info>, x: Path, name: string, m: nat)
    requires Ordered(PathsOf(v)) && m < |v| && Is(v[m], x, name)
    ensures NamedIn(v, x, name, FirstStop(v, x, true, 0)).Some?
  {
    var n := FirstStop(v, x, true, 0);
    FindsFirstMatch(v, x, m);
    var e := BlockEnd(v, x, n);
    if e <= m {
      SamePathTogether(PathsOf(v), n, e, m);
    }
  }

  lemma PathsInserted(v: seq<Info>, x: Info, n: nat)
    requires n <= |v|
    ensures PathsOf(Inserted(v, x, n)) == Inserted(PathsOf(v), x.path, n)
  {
  }

  lemma NamesStayUnique(v: seq<Info>, x: Info, n: nat)
    requires NamesUnique(v) && n <= |v|
    requires forall i, name :: 0 <= i < |v| && Is(x, x.path, name) ==> !Is(v[i], x.path, name)
    ensures NamesUnique(Inserted(v, x, n))
  {
    var w := Inserted(v, x, n);
    forall i, j, name | 0 <= i < |w| && 0 <= j < |w| && Is(w[i], w[j].path, name) && Is(w[j], w[j].path, name)
      ensures i == j
    {
      if i != n && j != n {
        var i', j' := if i < n then i else i - 1, if j < n then j else j - 1;
        assert Is(v[i'], v[j'].path, name) && Is(v[j'], v[j'].path, name);
      }
    }
  }

  /** Every call keeps the paths in order and the names unique. */
  lemma ApplyKeepsGood(v: seq<Info>, c: Call)
    requires Good(v)
    ensures Good(Apply(v, c))
  {
    var n := FirstStop(v, c.path, true, 0);
    StopIsInsertionPoint(v, c.path);
    if c.SetTitle? {
      var x := Info(c.path, None, Some(c.title));
      InsertKeepsOrder(PathsOf(v), c.path, n);
      PathsInserted(v, x, n);
      NamesStayUnique(v, x, n);
    } else if NamedIn(v, c.path, c.name, n).None? {
      var x := Info(c.path, Some(c.name), c.boxtitle);
      var e := BlockEnd(v, c.path, n);
      InsertKeepsOrder(PathsOf(v), c.path, e);
      PathsInserted(v, x, e);
      forall i, name | 0 <= i < |v| && Is(x, x.path, name)
        ensures !Is(v[i], x.path, name)
      {
        if Is(v[i], x.path, name) {
          NamedIsFound(v, c.path, c.name, i);
        }
      }
      NamesStayUnique(v, x, e);
    }
  }

  lemma {:induction false} BuildIsGood(calls: seq<Call>)
    ensures Good(Build(calls))
    decreases |calls|
  {
    if calls != [] {
      BuildIsGood(calls[..|calls| - 1]);
      ApplyKeepsGood(Build(calls[..|calls| - 1]), calls[|calls| - 1]);
    }
  }

  /** After any calls, the sets with one path, and those under one prefix, stand together. */
  lemma PathsAreContiguous(calls: seq<Call>, prefix: Path, i: nat, j: nat, k: nat)
    requires i <= j <= k < |Build(calls)|
    ensures var v := Build(calls);
            && (v[i].path == v[k].path ==> v[j].path == v[i].path)
            && (Under(v[i].path, prefix) && Under(v[k].path, prefix) ==> Under(v[j].path, prefix))
  {
    BuildIsGood(calls);
    var v := Build(calls);
    var ps := PathsOf(v);
    hide Build, Under, Closeness;
    if v[i].path == v[k].path {
      SamePathTogether(ps, i, j, k);
    }
    if Under(v[i].path, prefix) && Under(v[k].path, prefix) {
      PrefixTogether(ps, prefix, i, j, k);
    }
  }

  // The box itself.

  class ControlSet {
    const pathname: Path
    const boxname: Option<string>
    const boxtitle: Option<string>
    const ncolumns: nat

    constructor (pathname: Path, boxname: Option<string>, boxtitle: Option<string>, ncolumns: nat)
      ensures this.Described() == Info(pathname, boxname, boxtitle) && this.ncolumns == ncolumns
    {
      this.pathname, this.boxname, this.boxtitle, this.ncolumns := pathname, boxname, boxtitle, ncolumns;
    }

    function Described(): Info {
      Info(pathname, boxname, boxtitle)
    }
  }

  class Box {
    var sets: seq<ControlSet>

    ghost function View(): (v: seq<Info>)
      reads this
      ensures |v| == |sets| && forall i :: 0 <= i < |v| ==> v[i] == sets[i].Described()
    {
      seq(|sets|, i requires 0 <= i < |sets| reads this => sets[i].Described())
    }

    ghost predicate Valid()
      reads this
    {
      Good(View())
    }

    constructor ()
      ensures sets == [] && Valid()
    {
      sets := [];
    }

    /** ctrl_find_set. */
    method FindSet(path: Path, start: bool) returns (index: nat)
      ensures index == FirstStop(View(), path, start, 0)
    {
      hide Good, Closeness, FirstStop;
      var last, i := 0, 0;
      while i < |sets|
        invariant 0 <= i <= |sets|
        invariant FirstStop(View(), path, start, i) == FirstStop(View(), path, start, 0)
        invariant last == if i == 0 then 0 else Closeness(path, View()[i - 1].path)
      {
        StopStep(View(), path, start, i);
        var thisone := PathCompare(path, sets[i].pathname);
        if (start && thisone == INT_MAX) || thisone < last {
          return i;
        }
        last := thisone;
        i := i + 1;
      }
      StopStep(View(), path, start, i);
      return |sets|;
    }

    /** ctrl_find_path: the next set with that path, or the first, or -1. */
    method FindPath(path: Path, index: int) returns (next: int)
      requires Valid() && -1 <= index < |sets|
      requires index >= 0 ==> sets[index].pathname == path
      ensures -1 <= next < |sets|
      ensures next >= 0 ==> sets[next].pathname == path && next > index
      ensures forall i :: index < i < (if next < 0 then |sets| else next) ==> sets[i].pathname != path
    {
      var n: nat;
      ghost var ps := PathsOf(View());
      if index < 0 {
        n := FindSet(path, true);
        forall m | 0 <= m < |sets| && sets[m].pathname == path
          ensures n <= m && sets[n].pathname == path
        {
          FindsFirstMatch(View(), path, m);
        }
      } else {
        n := index + 1;
        forall m | n <= m < |sets| && sets[m].pathname == path
          ensures sets[n].pathname == path
        {
          SamePathTogether(ps, index, n, m);
        }
      }
      if n < |sets| && path == sets[n].pathname {
        return n;
      }
      return -1;
    }

    /** The loop every caller of ctrl_find_path runs: it visits the sets of a path once each, in order. */
    method VisitPath(path: Path) returns (visited: seq<nat>)
      requires Valid()
      ensures forall a, b :: 0 <= a < b < |visited| ==> visited[a] < visited[b]
      ensures forall i: nat :: i in visited <==> i < |sets| && sets[i].pathname == path
    {
      visited := [];
      var index := FindPath(path, -1);
      while index >= 0
        invariant -1 <= index < |sets| && (index >= 0 ==> sets[index].pathname == path)
        invariant forall a, b :: 0 <= a < b < |visited| ==> visited[a] < visited[b]
        invariant index >= 0 ==> forall a :: 0 <= a < |visited| ==> visited[a] < index
        invariant forall i: nat :: i in visited <==>
                    i < (if index < 0 then |sets| else index) && sets[i].pathname == path
        decreases if index < 0 then 0 else |sets| - index
      {
        visited := visited + [index];
        index := FindPath(path, index);
      }
    }

    /** Makes room at `index` and puts the new set there. */
    method Insert(index: nat, s: ControlSet)
      requires index <= |sets|
      modifies this
      ensures sets == Inserted(old(sets), s, index)
      ensures View() == Inserted(old(View()), s.Described(), index)
    {
      sets := sets[..index] + [s] + sets[index..];
    }

    /** ctrl_settitle. */
    method SetTitle(path: Path, title: string) returns (s: ControlSet)
      requires Valid()
      modifies this
      ensures Valid() && fresh(s) && s in sets && s.ncolumns == 0
      ensures s.Described() == Info(path, None, Some(title))
      ensures View() == Apply(old(View()), Call.SetTitle(path, title))
    {
      ApplyKeepsGood(View(), Call.SetTitle(path, title));
      var index := FindSet(path, true);
      s := new ControlSet(path, None, Some(title), 0);
      Insert(index, s);
      assert s == sets[index];
    }

    /** The search of ctrl_getset: the set of that name, or the end of the sets with that path. */
    method Search(path: Path, name: string) returns (index: nat, found: bool)
      ensures var n := FirstStop(View(), path, true, 0);
              if found then NamedIn(View(), path, name, n) == Some(index)
              else NamedIn(View(), path, name, n).None? && index == BlockEnd(View(), path, n)
    {
      hide FirstStop;
      index := FindSet(path, true);
      ghost var n := index;
      while index < |sets| && sets[index].pathname == path
        invariant index <= |sets|
        invariant NamedIn(View(), path, name, index) == NamedIn(View(), path, name, n)
        invariant BlockEnd(View(), path, index) == BlockEnd(View(), path, n)
      {
        if sets[index].boxname.Some? && sets[index].boxname.value == name {
          return index, true;
        }
        index := index + 1;
      }
      return index, false;
    }

    /** ctrl_getset: the set of that path and name, made only if there is none. */
    method GetSet(path: Path, name: string, boxtitle: Option<string>) returns (s: ControlSet)
      requires Valid()
      modifies this
      ensures Valid() && s in sets && s.pathname == path && s.boxname == Some(name)
      ensures (exists i :: 0 <= i < |old(sets)| && Is(old(View())[i], path, name)) ==>
                sets == old(sets)
      ensures (forall i :: 0 <= i < |old(sets)| ==> !Is(old(View())[i], path, name)) ==>
                fresh(s) && s.boxtitle == boxtitle && s.ncolumns == 1
      ensures View() == Apply(old(View()), Call.GetSet(path, name, boxtitle))
    {
      assert Ordered(PathsOf(View()));
      ApplyKeepsGood(View(), Call.GetSet(path, name, boxtitle));
      hide Good, Ordered, FirstStop, BlockEnd, NamedIn, Inserted;
      var index, found := Search(path, name);
      if found {
        assert Is(View()[index], path, name);
        return sets[index];
      }
      forall i | 0 <= i < |sets| && Is(View()[i], path, name)
        ensures false
      {
        NamedIsFound(View(), path, name, i);
      }
      s := new ControlSet(path, Some(name), boxtitle, 1);
      Insert(index, s);
      assert s == sets[index];
    }
  }
}

/** What each call adds to the box, and where; and what a run of calls leaves in it. */
module ControlBoxRuns {
  import opened Bytes
  import opened ControlBox

  ghost predicate Absent(v: seq<Info>, x: Path) {
    forall i :: 0 <= i < |v| ==> v[i].path != x
  }

  ghost predicate Has(v: seq<Info>, x: Path, name: string) {
    exists i :: 0 <= i < |v| && v[i].path == x && v[i].name == Some(name)
  }

  /** Behind the last of those that share the most with it. */
  ghost predicate BehindClosest(v: seq<Info>, x: Path, n: nat)
    requires n <= |v|
  {
    v != [] ==>
      && n > 0
      && (forall i :: 0 <= i < n ==> Closeness(x, v[i].path) <= Closeness(x, v[n - 1].path))
      && (forall i :: n <= i < |v| ==> Closeness(x, v[i].path) < Closeness(x, v[n - 1].path))
  }

  lemma InsertedIs<T>(s: seq<T>, x: T, n: nat)
    requires n <= |s|
    ensures Inserted(s, x, n) == s[..n] + [x] + s[n..]
  {
  }

  /** No set of that path: the search ends behind the closest. */
  lemma SearchOfAbsent(v: seq<Info>, x: Path)
    requires Ordered(PathsOf(v)) && Absent(v, x)
    ensures var n := FirstStop(v, x, true, 0);
            BlockEnd(v, x, n) == n && BehindClosest(v, x, n)
  {
    var n := FirstStop(v, x, true, 0);
    var e := BlockEnd(v, x, n);
    StopIsInsertionPoint(v, x);
    assert e == n;
    hide *;
    BehindInsertionPoint(v, x, n);
  }

  lemma BehindInsertionPoint(v: seq<Info>, x: Path, n: nat)
    requires Ordered(PathsOf(v)) && Absent(v, x) && InsertionPoint(PathsOf(v), x, n)
    ensures n <= |v| && BehindClosest(v, x, n)
  {
    var ps := PathsOf(v);
    hide Closeness, Ordered;
    forall i | n <= i < |v|
      ensures Closeness(x, v[i].path) < Closeness(x, v[n - 1].path)
    {
      FallsAfter(ps, x, n, n, i);
    }
  }

  /** Behind a set with that path that is not its run's end, there is none with it before the run. */
  lemma SearchOfPresent(v: seq<Info>, x: Path)
    requires Ordered(PathsOf(v))
    ensures var n := FirstStop(v, x, true, 0);
            Absent(v[..n], x) && Absent(v[BlockEnd(v, x, n)..], x)
  {
    var n := FirstStop(v, x, true, 0);
    var e := BlockEnd(v, x, n);
    hide Closeness, Ordered, FirstStop, BlockEnd;
    forall m | 0 <= m < |v| && v[m].path == x
      ensures n <= m < e
    {
      FindsFirstMatch(v, x, m);
      if e <= m {
        SamePathTogether(PathsOf(v), n, e, m);
      }
    }
  }

  /**
   * A title is put before all the sets of its path, at the place `n`; it is kept if there is one
   * already. If there is no set of that path it goes behind those that share the most with it.
   */
  lemma TitleIsPlaced(v: seq<Info>, x: Path, title: string) returns (n: nat)
    requires Good(v)
    ensures n <= |v| && Apply(v, SetTitle(x, title)) == v[..n] + [Info(x, None, Some(title))] + v[n..]
    ensures Absent(v[..n], x) && (Absent(v, x) ==> BehindClosest(v, x, n))
  {
    n := FirstStop(v, x, true, 0);
    hide Ordered, FirstStop, BlockEnd;
    SearchOfPresent(v, x);
    if Absent(v, x) {
      SearchOfAbsent(v, x);
    }
    InsertedIs(v, Info(x, None, Some(title)), n);
  }

  lemma NamedIsThere(v: seq<Info>, x: Path, name: string, s: nat)
    requires s <= |v|
    ensures NamedIn(v, x, name, s).Some? ==> Has(v, x, name)
  {
  }

  /** A named set that is there already is left as it is; otherwise it is put behind all the sets of its path. */
  lemma SetIsPlaced(v: seq<Info>, x: Path, name: string, title: Option<string>) returns (n: nat)
    requires Good(v)
    ensures Has(v, x, name) ==> Apply(v, GetSet(x, name, title)) == v
    ensures !Has(v, x, name) ==>
              && n <= |v| && Apply(v, GetSet(x, name, title)) == v[..n] + [Info(x, Some(name), title)] + v[n..]
              && Absent(v[n..], x) && (Absent(v, x) ==> BehindClosest(v, x, n))
  {
    var s := FirstStop(v, x, true, 0);
    n := BlockEnd(v, x, s);
    hide Ordered, FirstStop, BlockEnd;
    SearchOfPresent(v, x);
    if Absent(v, x) {
      SearchOfAbsent(v, x);
    }
    InsertedIs(v, Info(x, Some(name), title), n);
    if Has(v, x, name) {
      var m :| 0 <= m < |v| && v[m].path == x && v[m].name == Some(name);
      assert Is(v[m], x, name);
      NamedIsFound(v, x, name, m);
    }
    NamedIsThere(v, x, name, s);
  }

  // Runs of calls.

  /** The title that the first call for the set gave it. */
  function FirstTitle(calls: seq<Call>, x: Path, name: string): Option<Option<string>> {
    if calls == [] then None
    else if calls[0].GetSet? && calls[0].path == x && calls[0].name == name then Some(calls[0].boxtitle)
    else FirstTitle(calls[1..], x, name)
  }

  lemma {:induction false} FirstTitleSnoc(calls: seq<Call>, c: Call, x: Path, name: string)
    ensures FirstTitle(calls + [c], x, name)
         == if FirstTitle(calls, x, name).Some? then FirstTitle(calls, x, name)
            else if c.GetSet? && c.path == x && c.name == name then Some(c.boxtitle) else None
    decreases |calls|
  {
    if calls == [] {
      assert (calls + [c])[1..] == [] && (calls + [c])[0] == c;
    } else {
      assert (calls + [c])[1..] == calls[1..] + [c] && (calls + [c])[0] == calls[0];
      FirstTitleSnoc(calls[1..], c, x, name);
    }
  }

  function Titles(calls: seq<Call>): nat {
    if calls == [] then 0 else Titles(calls[..|calls| - 1]) + if calls[|calls| - 1].SetTitle? then 1 else 0
  }

  function Unnamed(v: seq<Info>): nat {
    if v == [] then 0 else (if v[0].name.None? then 1 else 0) + Unnamed(v[1..])
  }

  lemma {:induction false} UnnamedSum(a: seq<Info>, b: seq<Info>)
    ensures Unnamed(a + b) == Unnamed(a) + Unnamed(b)
    decreases |a|
  {
    if a == [] {
      assert a + b == b;
    } else {
      assert (a + b)[1..] == a[1..] + b;
      UnnamedSum(a[1..], b);
    }
  }

  lemma UnnamedInserted(v: seq<Info>, x: Info, n: nat)
    requires n <= |v|
    ensures Unnamed(v[..n] + [x] + v[n..]) == Unnamed(v) + if x.name.None? then 1 else 0
  {
    UnnamedOne(x);
    hide *;
    UnnamedSum(v[..n] + [x], v[n..]);
    UnnamedSum(v[..n], [x]);
    UnnamedSum(v[..n], v[n..]);
    assert v[..n] + v[n..] == v;
  }

  lemma UnnamedOne(x: Info)
    ensures Unnamed([x]) == if x.name.None? then 1 else 0
  {
    assert [x][1..] == [];
  }

  lemma HasInserted(v: seq<Info>, x: Info, n: nat, p: Path, name: string, title: Option<string>)
    requires n <= |v|
    ensures var w := v[..n] + [x] + v[n..];
            && (Has(w, p, name) <==> Has(v, p, name) || (x.path == p && x.name == Some(name)))
            && (Info(p, Some(name), title) in w <==> Info(p, Some(name), title) in v || x == Info(p, Some(name), title))
  {
    var w := v[..n] + [x] + v[n..];
    assert w[n] == x;
    forall i | 0 <= i < |v|
      ensures v[i] == w[if i < n then i else i + 1]
    {
    }
  }

  lemma HasOfInfo(v: seq<Info>, p: Path, name: string, title: Option<string>)
    ensures Info(p, Some(name), title) in v ==> Has(v, p, name)
  {
  }

  /**
   * After any calls the box holds a set for each path and name that was ever asked for, with the title
   * of the first such call, one set for each title that was set, and nothing else.
   */
  lemma {:induction false} BoxHoldsWhatWasAsked(calls: seq<Call>, x: Path, name: string, title: Option<string>)
    ensures var v := Build(calls);
            && (Has(v, x, name) <==> FirstTitle(calls, x, name).Some?)
            && (Info(x, Some(name), title) in v <==> FirstTitle(calls, x, name) == Some(title))
            && Unnamed(v) == Titles(calls)
    decreases |calls|
  {
    if calls == [] {
      assert Build(calls) == [];
    } else {
      var init, c := calls[..|calls| - 1], calls[|calls| - 1];
      var v := Build(init);
      assert calls == init + [c] && Build(calls) == Apply(v, c);
      assert Titles(calls) == Titles(init) + if c.SetTitle? then 1 else 0;
      hide Build, Apply, FirstTitle, Titles, Unnamed, Good;
      BoxHoldsWhatWasAsked(init, x, name, title);
      FirstTitleSnoc(init, c, x, name);
      BuildIsGood(init);
      HasOfInfo(v, x, name, title);
      if c.SetTitle? {
        var n := TitleIsPlaced(v, c.path, c.title);
        var set' := Info(c.path, None, Some(c.title));
        UnnamedInserted(v, set', n);
        HasInserted(v, set', n, x, name, title);
      } else {
        var n := SetIsPlaced(v, c.path, c.name, c.boxtitle);
        if !Has(v, c.path, c.name) {
          var set' := Info(c.path, Some(c.name), c.boxtitle);
          UnnamedInserted(v, set', n);
          HasInserted(v, set', n, x, name, title);
        }
      }
    }
  }
}

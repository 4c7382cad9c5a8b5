/** module.c: modules wait for the modules they name, and are tried again whenever one gets loaded. */
module Modules {
  import opened Words

  const MODULE_ARRAY_SIZE: nat := 128

  /** The position of comma number `n`, counting from 0, at or after `from`; |s| if there is none. */
  function Comma(s: string, from: nat, n: nat): (r: nat)
    requires from <= |s|
    ensures from <= r <= |s| && (r < |s| ==> s[r] == ',')
    decreases |s| - from
  {
    if from == |s| then |s|
    else if s[from] == ',' then if n == 0 then from else Comma(s, from + 1, n - 1)
    else Comma(s, from + 1, n)
  }

  /** What deps_block finds: the text between commas `k` and `k + 1`, or everything if there are not so many. */
  function Block(path: string, k: nat): string
  {
    var a := Comma(path, 0, k);
    if a == |path| then path
    else
      var b := Comma(path, a + 1, 0);
      if b == |path| then path else path[a + 1..b]
  }

  method DepsBlock(path: string, block: nat) returns (r: string)
    ensures r == Block(path, block)
  {
    var blocks, a, b := 0, -1, -1;
    for i := 0 to |path|
      invariant b == -1 && blocks <= block
      invariant a < 0 ==> a == -1 && Comma(path, 0, block) == Comma(path, i, block - blocks)
      invariant a >= 0 ==>
        && blocks == block && 0 < a <= i && a == Comma(path, 0, block) + 1
        && Comma(path, a, 0) == Comma(path, i, 0)
    {
      if blocks == block && path[i] == ',' {
        if a < 0 {
          a := i + 1;
        } else {
          b := i;
          break;
        }
      } else if path[i] == ',' {
        blocks := blocks + 1;
      }
    }
    if a > 0 && b > 0 {
      return path[a..b];
    }
    return path;
  }

  /** Names in the form the array of a module header can hold: each followed by a comma. */
  function Joined(names: seq<string>): string
  {
    if names == [] then "" else names[0] + "," + Joined(names[1..])
  }

  lemma {:induction false} CommaNext(s: string, from: nat, n: nat)
    requires from <= |s| && Comma(s, from, n) < |s|
    ensures Comma(s, from, n + 1) == Comma(s, Comma(s, from, n) + 1, 0)
    decreases |s| - from
  {
    if s[from] == ',' {
      if n > 0 {
        CommaNext(s, from + 1, n - 1);
      }
    } else {
      CommaNext(s, from + 1, n);
    }
  }

  lemma {:induction false} CommaLater(s: string, from: nat, n: nat)
    requires from <= |s|
    ensures Comma(s, from, n) <= Comma(s, from, n + 1)
    decreases |s| - from
  {
    if from < |s| {
      CommaLater(s, from + 1, if s[from] == ',' && n > 0 then n - 1 else n);
    }
  }

  /** The first comma after a name without commas is the one that follows it. */
  lemma {:induction false} CommaAfter(s: string, from: nat, end: nat, n: nat)
    requires from <= end < |s| && s[end] == ',' && forall i | from <= i < end :: s[i] != ','
    ensures Comma(s, from, n) == if n == 0 then end else Comma(s, end + 1, n - 1)
    decreases end - from
  {
    if from < end {
      CommaAfter(s, from + 1, end, n);
    }
  }

  /** From `from` on `s` holds the names, each with a comma behind it, and nothing else. */
  ghost predicate Lists(s: string, from: nat, names: seq<string>)
    decreases |names|
  {
    if names == [] then from == |s|
    else
      var end := from + |names[0]|;
      end < |s| && s[from..end] == names[0] && s[end] == ',' && Lists(s, end + 1, names[1..])
  }

  lemma Pieces(pre: string, name: string, tail: string)
    ensures var s, end := pre + (name + "," + tail), |pre| + |name|;
            s == pre + name + "," + tail && end < |s| && s[|pre|..end] == name && s[end] == ','
  {
  }

  lemma {:induction false} JoinedLists(pre: string, names: seq<string>)
    ensures Lists(pre + Joined(names), |pre|, names)
    decreases |names|
  {
    if names != [] {
      JoinedLists(pre + names[0] + ",", names[1..]);
      Pieces(pre, names[0], Joined(names[1..]));
    }
  }

  ghost predicate NoCommas(names: seq<string>)
  {
    forall i | 0 <= i < |names| :: ',' !in names[i]
  }

  lemma HeadComma(s: string, from: nat, names: seq<string>, k: nat)
    requires names != [] && Lists(s, from, names) && ',' !in names[0]
    ensures Comma(s, from, k) == if k == 0 then from + |names[0]| else Comma(s, from + |names[0]| + 1, k - 1)
  {
    var end := from + |names[0]|;
    forall i | from <= i < end
      ensures s[i] != ','
    {
      assert s[i] == s[from..end][i - from];
    }
    CommaAfter(s, from, end, k);
  }

  /** Name `k` of the list lies between comma `k - 1` and comma `k`. */
  lemma {:induction false} NameSpan(s: string, from: nat, names: seq<string>, k: nat) returns (a: nat, e: nat)
    requires from <= |s| && Lists(s, from, names) && k < |names| && NoCommas(names)
    ensures a <= e < |s| && s[a..e] == names[k] && e == Comma(s, from, k)
    ensures a == if k == 0 then from else Comma(s, from, k - 1) + 1
    ensures e == |s| - 1 <==> k + 1 == |names|
    decreases |names|
  {
    var end := from + |names[0]|;
    HeadComma(s, from, names, k);
    if k == 0 {
      a, e := from, end;
    } else {
      a, e := NameSpan(s, end + 1, names[1..], k - 1);
      HeadComma(s, from, names, k - 1);
    }
  }

  /** No commas follow the last. */
  lemma {:induction false} CommaNone(s: string, from: nat, names: seq<string>, k: nat)
    requires from <= |s| && Lists(s, from, names) && NoCommas(names) && k >= |names|
    ensures Comma(s, from, k) == |s|
    decreases |names|
  {
    if names != [] {
      HeadComma(s, from, names, k);
      CommaNone(s, from + |names[0]| + 1, names[1..], k - 1);
    }
  }

  lemma BlockBetween(path: string, k: nat, a: nat, b: nat)
    requires a == Comma(path, 0, k) < |path| && b == Comma(path, a + 1, 0) < |path|
    ensures Block(path, k) == path[a + 1..b]
  {
  }

  lemma CommaFirst(s: string, k: nat)
    requires s != [] && s[0] == ','
    ensures Comma(s, 0, k) == if k == 0 then 0 else Comma(s, 1, k - 1)
  {
  }

  lemma BlockAfterComma(s: string, k: nat, a: nat, e: nat)
    requires s != [] && s[0] == ',' && e == Comma(s, 1, k) < |s|
    requires a == if k == 0 then 1 else Comma(s, 1, k - 1) + 1
    ensures a <= e && Block(s, k) == s[a..e]
  {
    CommaFirst(s, k);
    assert Comma(s, a, 0) == e by {
      if k > 0 {
        CommaLater(s, 1, k - 1);
        CommaNext(s, 1, k - 1);
      }
    }
    BlockBetween(s, k, a - 1, e);
  }

  lemma WrappedBlock(s: string, names: seq<string>, k: nat)
    requires s != [] && s[0] == ',' && Lists(s, 1, names) && k < |names| && NoCommas(names)
    ensures Block(s, k) == names[k]
  {
    var a, e := NameSpan(s, 1, names, k);
    BlockAfterComma(s, k, a, e);
  }

  /** Written with a leading and a trailing comma, a list of names is read back name by name. */
  lemma BlockRoundTrip(names: seq<string>, k: nat)
    requires k < |names| && NoCommas(names)
    ensures Block("," + Joined(names), k) == names[k]
  {
    var s := "," + Joined(names);
    JoinedLists(",", names);
    WrappedBlock(s, names, k);
  }

  /** Names with commas between them only. */
  function Bare(names: seq<string>): string
    requires names != []
  {
    if |names| == 1 then names[0] else names[0] + "," + Bare(names[1..])
  }

  lemma {:induction false} BareJoined(names: seq<string>)
    requires names != []
    ensures Bare(names) + "," == Joined(names) && Closes(Bare(names), Joined(names))
  {
    if |names| > 1 {
      BareJoined(names[1..]);
    }
  }

  /** `t` is `s` with a comma at its end. */
  ghost predicate Closes(s: string, t: string)
  {
    |t| == |s| + 1 && t[..|s|] == s && t[|s|] == ','
  }

  lemma {:induction false} CommaCut(s: string, t: string, from: nat, n: nat)
    requires Closes(s, t) && from <= |s|
    ensures Comma(s, from, n) == if Comma(t, from, n) < |s| then Comma(t, from, n) else |s|
    decreases |s| - from
  {
    if from < |s| {
      assert t[from] == t[..|s|][from] == s[from];
      if s[from] == ',' {
        if n > 0 {
          CommaCut(s, t, from + 1, n - 1);
        }
      } else {
        CommaCut(s, t, from + 1, n);
      }
    }
  }

  lemma SamePart(s: string, t: string, a: nat, b: nat)
    requires Closes(s, t) && a <= b <= |s|
    ensures t[a..b] == s[a..b]
  {
    forall i | a <= i < b
      ensures t[i] == s[i]
    {
      assert t[i] == t[..|s|][i];
    }
  }

  /** The blocks of a text, by the commas of the text with one more at its end. */
  lemma BlockCut(s: string, t: string, k: nat, c: nat, d: nat)
    requires Closes(s, t) && c == Comma(t, 0, k) && d == Comma(t, 0, k + 1)
    ensures d >= |s| ==> Block(s, k) == s
    ensures d < |s| ==> c < d && Block(s, k) == t[c + 1..d]
  {
    CommaCut(s, t, 0, k);
    if c < |s| {
      CommaNext(t, 0, k);
      CommaCut(s, t, c + 1, 0);
      if d < |s| {
        BlockBetween(s, k, c, d);
        SamePart(s, t, c + 1, d);
      }
    } else {
      CommaLater(t, 0, k);
    }
  }

  lemma BareBlock(s: string, t: string, names: seq<string>, k: nat)
    requires Closes(s, t) && Lists(t, 0, names) && k < |names| && NoCommas(names)
    ensures Block(s, k) == if k + 2 < |names| then names[k + 1] else s
  {
    if k + 1 == |names| {
      CommaNone(t, 0, names, k + 1);
      BlockCut(s, t, k, Comma(t, 0, k), |t|);
    } else {
      var a, e := NameSpan(t, 0, names, k + 1);
      BlockCut(s, t, k, a - 1, e);
    }
  }

  /** Without the outer commas no list of two or more names is read back: a block in the middle comes out
      one name late, and where there is no such block the whole text is taken for a name. One name on its
      own is read back. */
  lemma BlockBare(names: seq<string>, k: nat)
    requires k < |names| && NoCommas(names)
    ensures Block(Bare(names), k) == if k + 2 < |names| then names[k + 1] else Bare(names)
  {
    BareJoined(names);
    JoinedLists("", names);
    assert "" + Joined(names) == Joined(names);
    BareBlock(Bare(names), Joined(names), names, k);
  }

  /** A module header; `loads` is whether its load function succeeds. */
  datatype Mod = Mod(name: string, depCnt: Byte, deps: string, loads: bool)

  datatype State = Failed | Loaded | Delayed // 0, 1 and 2 in the source; 0 also while a module is being loaded

  datatype Entry = Entry(mod: Mod, state: State)

  ghost function On(modules: seq<Entry>): set<Mod>
  {
    set e | e in modules && e.state == Loaded :: e.mod
  }

  /** Every module ever presented. */
  ghost function Presented(modules: seq<Entry>): set<Mod>
  {
    set e | e in modules :: e.mod
  }

  ghost predicate Named(on: set<Mod>, name: string)
  {
    exists d | d in on :: d.name == name
  }

  /** Everything `m` names is in `on`. */
  ghost predicate Ready(on: set<Mod>, m: Mod)
  {
    forall k: nat {:trigger Block(m.deps, k)} | k < m.depCnt :: Named(on, Block(m.deps, k))
  }

  /** No presented module that could be loaded is missing from `s`. */
  ghost predicate Closed(presented: set<Mod>, s: set<Mod>)
  {
    forall m | m in presented && m.loads && Ready(s, m) :: m in s
  }

  ghost function Elems(log: seq<Mod>): set<Mod> { set m | m in log }

  /** Each module comes after modules with all the names it needs. */
  ghost predicate Ordered(log: seq<Mod>)
  {
    forall j {:trigger log[j]} | 0 <= j < |log| :: log[j].loads && Ready(Elems(log[..j]), log[j])
  }

  /** `log` lists the loaded modules in the order in which they were loaded; what failed cannot load. */
  ghost predicate Booked(modules: seq<Entry>, log: seq<Mod>)
  {
    && Elems(log) == On(modules) && Ordered(log)
    && forall e | e in modules && e.state == Failed :: !e.mod.loads
  }

  /** ... and whatever is still delayed lacks something. */
  ghost predicate Settled(modules: seq<Entry>, log: seq<Mod>)
  {
    Booked(modules, log) && forall e | e in modules && e.state == Delayed :: !Ready(On(modules), e.mod)
  }

  lemma ReadyMonotone(s: set<Mod>, t: set<Mod>, m: Mod)
    requires s <= t && Ready(s, m)
    ensures Ready(t, m)
  {
    forall k: nat | k < m.depCnt
      ensures Named(t, Block(m.deps, k))
    {
      assert Named(s, Block(m.deps, k));
    }
  }

  lemma OrderedPrefix(log: seq<Mod>, n: nat)
    requires Ordered(log) && n == |log| - 1
    ensures Ordered(log[..n]) && Elems(log) == Elems(log[..n]) + {log[n]}
  {
    var pre := log[..n];
    assert log == pre + [log[n]];
    forall j | 0 <= j < n
      ensures pre[j].loads && Ready(Elems(pre[..j]), pre[j])
    {
      assert pre[..j] == log[..j] && pre[j] == log[j];
    }
  }

  lemma {:induction false} OrderedInClosed(presented: set<Mod>, s: set<Mod>, log: seq<Mod>)
    requires Closed(presented, s) && Ordered(log) && Elems(log) <= presented
    ensures Elems(log) <= s
    decreases |log|
  {
    if log != [] {
      var n := |log| - 1;
      OrderedPrefix(log, n);
      OrderedInClosed(presented, s, log[..n]);
      ReadyMonotone(Elems(log[..n]), s, log[n]);
    }
  }

  /** The loaded modules are the least set closed under: a module whose load function succeeds and whose
      every dependency is the name of a member is a member. */
  lemma LoadedIsLeast(modules: seq<Entry>, log: seq<Mod>, s: set<Mod>)
    requires Settled(modules, log)
    ensures Closed(Presented(modules), On(modules)) && On(modules) <= Presented(modules)
    ensures Closed(Presented(modules), s) ==> On(modules) <= s
    ensures forall m | m in On(modules) :: m.loads && Ready(On(modules), m)
    ensures forall m, k: nat {:trigger m in On(modules), Block(m.deps, k)} | m in On(modules) && k < m.depCnt ::
      exists d | d in On(modules) :: d.name == Block(m.deps, k)
    ensures forall e | e in modules && e.mod !in On(modules) && e.mod.loads ::
      exists k: nat {:trigger Block(e.mod.deps, k)} | k < e.mod.depCnt ::
        forall d | d in On(modules) :: d.name != Block(e.mod.deps, k)
  {
    forall e | e in modules && e.mod !in On(modules) && e.mod.loads
      ensures exists k: nat {:trigger Block(e.mod.deps, k)} | k < e.mod.depCnt ::
                forall d | d in On(modules) :: d.name != Block(e.mod.deps, k)
    {
      assert !Ready(On(modules), e.mod);
      var k: nat :| k < e.mod.depCnt && !Named(On(modules), Block(e.mod.deps, k));
      assert forall d | d in On(modules) :: d.name != Block(e.mod.deps, k);
    }
    if Closed(Presented(modules), s) {
      OrderedInClosed(Presented(modules), s, log);
    }
    forall m | m in On(modules)
      ensures m.loads && Ready(On(modules), m)
    {
      assert m in Elems(log);
      var j :| 0 <= j < |log| && log[j] == m;
      assert Elems(log[..j]) <= On(modules) by {
        assert forall d | d in log[..j] :: d in log && d in Elems(log);
      }
      ReadyMonotone(Elems(log[..j]), On(modules), m);
    }
  }

  /** What gets loaded does not depend on the order of presentation. */
  lemma OrderIndependent(modules: seq<Entry>, log: seq<Mod>, modules': seq<Entry>, log': seq<Mod>)
    requires Settled(modules, log) && Settled(modules', log') && Presented(modules) == Presented(modules')
    ensures On(modules) == On(modules')
  {
    LoadedIsLeast(modules, log, On(modules'));
    LoadedIsLeast(modules', log', On(modules));
  }

  /** The indices of the delayed modules. */
  ghost function Waiting(modules: seq<Entry>): set<nat>
  {
    set i | 0 <= i < |modules| && modules[i].state == Delayed
  }

  lemma WaitingDrops(modules: seq<Entry>, i: nat, e: Entry)
    requires i < |modules| && modules[i].state == Delayed && e.state != Delayed
    ensures |Waiting(modules[i := e])| < |Waiting(modules)|
  {
    assert Waiting(modules[i := e]) == Waiting(modules) - {i};
  }

  lemma LoadBooked(modules: seq<Entry>, log: seq<Mod>, i: nat)
    requires Booked(modules, log) && i < |modules| && modules[i].state == Delayed
    requires modules[i].mod.loads && Ready(On(modules), modules[i].mod)
    ensures Booked(modules[i := modules[i].(state := Loaded)], log + [modules[i].mod])
    ensures Presented(modules[i := modules[i].(state := Loaded)]) == Presented(modules)
  {
    var m := modules[i].mod;
    var modules', log' := modules[i := Entry(m, Loaded)], log + [m];
    SetStates(modules, i, Entry(m, Loaded));
    assert Elems(log') == Elems(log) + {m};
    forall j | 0 <= j < |log'|
      ensures log'[j].loads && Ready(Elems(log'[..j]), log'[j])
    {
      assert log'[..j] == log[..j];
    }
  }

  /** One entry changes its state, from delayed. */
  lemma SetStates(modules: seq<Entry>, i: nat, e: Entry)
    requires i < |modules| && modules[i].state == Delayed && e.mod == modules[i].mod
    ensures Presented(modules[i := e]) == Presented(modules)
    ensures On(modules[i := e]) == if e.state == Loaded then On(modules) + {e.mod} else On(modules)
    ensures forall f | f in modules[i := e] :: f == e || f in modules
  {
    var modules' := modules[i := e];
    assert forall f | f in modules :: f == modules[i] || f in modules' by {
      forall f | f in modules && f != modules[i]
        ensures f in modules'
      {
        var j :| 0 <= j < |modules| && modules[j] == f;
        assert modules'[j] == f;
      }
    }
    assert modules'[i] == e && modules[i] in modules && e in modules';
    forall m
      ensures m in Presented(modules') <==> m in Presented(modules)
    {
      if m in Presented(modules) {
        var f :| f in modules && f.mod == m;
        assert f in modules' || e.mod == m;
      }
    }
    forall m
      ensures m in On(modules') <==> m in On(modules) || (e.state == Loaded && m == e.mod)
    {
      if m in On(modules) {
        var f :| f in modules && f.state == Loaded && f.mod == m;
        assert f in modules';
      }
    }
  }

  lemma FailBooked(modules: seq<Entry>, log: seq<Mod>, i: nat)
    requires Booked(modules, log) && i < |modules| && modules[i].state == Delayed && !modules[i].mod.loads
    ensures Booked(modules[i := modules[i].(state := Failed)], log)
    ensures Presented(modules[i := modules[i].(state := Failed)]) == Presented(modules)
    ensures On(modules[i := modules[i].(state := Failed)]) == On(modules)
  {
    SetStates(modules, i, modules[i].(state := Failed));
  }

  lemma Appended(modules: seq<Entry>, e: Entry)
    ensures Presented(modules + [e]) == Presented(modules) + {e.mod}
    ensures On(modules + [e]) == if e.state == Loaded then On(modules) + {e.mod} else On(modules)
  {
    forall m
      ensures m in Presented(modules + [e]) <==> m in Presented(modules) || m == e.mod
      ensures m in On(modules + [e]) <==> m in On(modules) || (e.state == Loaded && m == e.mod)
    {
      assert e in modules + [e];
      assert forall f | f in modules :: f in modules + [e];
    }
  }

  class Loader {
    var modules: seq<Entry>
    ghost var log: seq<Mod>

    ghost predicate Valid()
      reads this
    {
      |modules| <= MODULE_ARRAY_SIZE && Settled(modules, log)
    }

    constructor ()
      ensures Valid() && modules == []
    {
      modules, log := [], [];
    }

    method IsLoaded(name: string) returns (r: bool)
      ensures r <==> Named(On(modules), name)
      ensures r <==> exists i | 0 <= i < |modules| :: modules[i].state == Loaded && modules[i].mod.name == name
    {
      for m := 0 to |modules|
        invariant forall i | 0 <= i < m :: !(modules[i].mod.name == name && modules[i].state == Loaded)
      {
        if name == modules[m].mod.name && modules[m].state == Loaded {
          assert modules[m].mod in On(modules);
          return true;
        }
      }
      return false;
    }

    method CheckDependencies(mod: Mod) returns (r: bool)
      ensures r <==> Ready(On(modules), mod)
    {
      for m := 0 to mod.depCnt
        invariant forall k: nat {:trigger Block(mod.deps, k)} | k < m :: Named(On(modules), Block(mod.deps, k))
      {
        var block := DepsBlock(mod.deps, m);
        var loaded := IsLoaded(block);
        if !loaded {
          assert !Named(On(modules), Block(mod.deps, m));
          return false;
        }
      }
      return true;
    }

    /** One pass over the table: `flag` tells whether anything got loaded. */
    method TryDelayed() returns (flag: bool)
      requires Booked(modules, log)
      modifies this
      ensures Booked(modules, log) && Presented(modules) == old(Presented(modules)) && |modules| == old(|modules|)
      ensures old(log) <= log
      ensures flag ==> |Waiting(modules)| < |old(Waiting(modules))|
      ensures !flag ==> Settled(modules, log)
    {
      flag := false;
      for m := 0 to |modules|
        invariant Booked(modules, log) && Presented(modules) == old(Presented(modules)) && |modules| == old(|modules|)
        invariant old(log) <= log
        invariant |Waiting(modules)| <= |old(Waiting(modules))|
        invariant (flag ==> |Waiting(modules)| < |old(Waiting(modules))|)
        invariant !flag ==> forall i | 0 <= i < m && modules[i].state == Delayed :: !Ready(On(modules), modules[i].mod)
      {
        if modules[m].state == Delayed {
          var ready := CheckDependencies(modules[m].mod);
          if ready {
            if modules[m].mod.loads {
              LoadBooked(modules, log, m);
              WaitingDrops(modules, m, modules[m].(state := Loaded));
              log := log + [modules[m].mod];
              modules := modules[m := modules[m].(state := Loaded)];
              flag := true;
            } else {
              FailBooked(modules, log, m);
              WaitingDrops(modules, m, modules[m].(state := Failed));
              modules := modules[m := modules[m].(state := Failed)];
            }
          }
        }
      }
    }

    /** module_try_dependencies_reload calls itself as long as something gets loaded; each time fewer
        modules are delayed. */
    method TryReload()
      requires Booked(modules, log)
      modifies this
      ensures Settled(modules, log) && Presented(modules) == old(Presented(modules)) && |modules| == old(|modules|)
      ensures old(log) <= log
      decreases |Waiting(modules)|
    {
      var flag := TryDelayed();
      if flag {
        TryReload();
      }
    }

    /** module_load, once the header has been found in the file. */
    method ModuleLoad(mod: Mod) returns (ok: bool)
      requires Valid() && |modules| < MODULE_ARRAY_SIZE
      modifies this
      ensures Valid() && |modules| == old(|modules|) + 1 && Presented(modules) == old(Presented(modules)) + {mod}
      ensures ok <==> mod.loads && Ready(old(On(modules)), mod)
      ensures old(log) <= log
    {
      ghost var was := modules;
      modules := modules + [Entry(mod, Failed)];
      Appended(was, Entry(mod, Failed));
      var ready := CheckDependencies(mod);
      var last := |modules| - 1;
      if !ready {
        Appended(was, Entry(mod, Delayed));
        modules := modules[last := Entry(mod, Delayed)];
        assert modules == was + [Entry(mod, Delayed)];
        return false;
      }
      if mod.loads {
        Appended(was, Entry(mod, Delayed));
        LoadBooked(was + [Entry(mod, Delayed)], log, last);
        assert modules[last := Entry(mod, Loaded)] == (was + [Entry(mod, Delayed)])[last := Entry(mod, Loaded)];
        modules := modules[last := Entry(mod, Loaded)];
        log := log + [mod];
        TryReload();
        return true;
      } else {
        modules := modules[last := Entry(mod, Failed)];
        assert modules == was + [Entry(mod, Failed)];
        return false;
      }
    }

    /** The start-up loop: one module after the other. */
    method LoadAll(mods: seq<Mod>)
      requires Valid() && |modules| + |mods| <= MODULE_ARRAY_SIZE
      modifies this
      ensures Valid() && Presented(modules) == old(Presented(modules)) + Elems(mods)
    {
      for i := 0 to |mods|
        invariant Valid() && |modules| == old(|modules|) + i
        invariant Presented(modules) == old(Presented(modules)) + Elems(mods[..i])
      {
        assert mods[..i + 1] == mods[..i] + [mods[i]];
        var _ := ModuleLoad(mods[i]);
      }
      assert mods[..|mods|] == mods;
    }
  }

  /** Two boots that present the same modules in different orders load the same ones. */
  method BootTwice(mods: seq<Mod>, shuffled: seq<Mod>) returns (a: Loader, b: Loader)
    requires |mods| <= MODULE_ARRAY_SIZE && |shuffled| <= MODULE_ARRAY_SIZE && Elems(mods) == Elems(shuffled)
    ensures On(a.modules) == On(b.modules)
  {
    a := new Loader();
    a.LoadAll(mods);
    b := new Loader();
    b.LoadAll(shuffled);
    OrderIndependent(a.modules, a.log, b.modules, b.log);
  }
}

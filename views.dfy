/** The set views of lib/rb/esus/hylib.rb (`HyliteSetView`, `EmptyHSV`) and the filter builders
    of `AbstractHyliteSet`, as values that wrap their backing set. What a view yields is stated
    here on the contents of the underlying hylite set; `HyliteSets.HyliteSet` evaluates it, and
    settles the names the deciders ask for as it goes. */
module Views {
  import opened Strings
  import opened Trie
  import opened Entity
  import opened Parsing

  /** The two decider procs the filter builders install: `filter_name` (string branch) and
      `filter_group`. */
  datatype Decider = NameIs(name: string) | InGroups(groups: seq<string>)

  /** `@mode` of a `HyliteSetView`. */
  datatype Mode = Include | Exclude | Decide(decider: Decider)

  /** A hylite set as the program sees it: the `HyliteSet` itself, a `HyliteSetView` over another
      set with its mode and its `@include`/`@exclude` sets of hylites, or an `EmptyHSV` over
      another set. Hylites are named by their index in the underlying set. */
  datatype View =
    | Whole
    | Filtered(source: View, mode: Mode, included: set<nat>, excluded: set<nat>)
    | Empty(source: View)

  /** `HyliteSetView.new(set)` without a block: mode `:include` with nothing excluded. */
  function NewView(source: View): View
  {
    Filtered(source, Include, {}, {})
  }

  /** `set.filter_name(name)` with a string `name`. */
  function FilterName(source: View, name: string): View
  {
    Filtered(source, Decide(NameIs(name)), {}, {})
  }

  /** `set.filter_group(groups)`. */
  function FilterGroup(source: View, groups: seq<string>): View
  {
    Filtered(source, Decide(InGroups(groups)), {}, {})
  }

  /** `hy.name_str.index(group) == 0`. */
  predicate InGroup(group: string, name: string)
  {
    IndexOf(name, group) == Some(0)
  }

  /** A group selects exactly the names it is a prefix of; the empty group selects every name. */
  lemma InGroupIsPrefix(group: string, name: string)
    ensures InGroup(group, name) <==> IsPrefix(group, name)
    ensures InGroup("", name)
  {
    if IsPrefix(group, name) {
      assert OccursAt(name, group, 0);
    }
    assert OccursAt(name, "", 0);
  }

  /** The decider's answer for a hylite called `name`. */
  predicate Decides(d: Decider, name: string)
  {
    match d
    case NameIs(x) => x == name
    case InGroups(gs) => exists i :: 0 <= i < |gs| && InGroup(gs[i], name)
  }

  /** Whether the decider calls `name_str` at all: `groups.any?` over no groups does not. */
  predicate NeedsName(d: Decider)
  {
    d.NameIs? || d.groups != []
  }

  /** `hylite_is_visible(hy)` of one view level; `name` is the hylite's `name_str` once it has
      been settled (a decider that does not need it answers false without it). */
  predicate LevelShows(mode: Mode, inc: set<nat>, exc: set<nat>, h: nat, name: Option<string>)
  {
    match mode
    case Include => h !in exc
    case Exclude => h in inc
    case Decide(d) => name.Some? && Decides(d, name.value)
  }

  /** Whether hylite `h` gets through every level of the view, innermost first, judged with the
      names cached in `hs`. */
  predicate Shows(v: View, h: nat, hs: seq<Hylite>)
    requires h < |hs|
  {
    match v
    case Whole => true
    case Empty(_) => false
    case Filtered(src, mode, inc, exc) => Shows(src, h, hs) && LevelShows(mode, inc, exc, h, hs[h].nameCache)
  }

  /** Every decider that the evaluation of `h` reaches (the levels below it let `h` through) and
      that asks for the name has it cached in `hs`. */
  predicate Settled(v: View, h: nat, hs: seq<Hylite>)
    requires h < |hs|
  {
    match v
    case Whole => true
    case Empty(_) => true
    case Filtered(src, mode, _, _) =>
      Settled(src, h, hs) && (Shows(src, h, hs) && mode.Decide? && NeedsName(mode.decider) ==> hs[h].nameCache.Some?)
  }

  /** `hs2` is `hs` after more names were settled: nothing but the cached names changed, and a
      cached name never changes. */
  predicate NamesSettled(hs: seq<Hylite>, hs2: seq<Hylite>)
  {
    && |hs| == |hs2|
    && forall h :: 0 <= h < |hs| ==>
         && hs2[h].(nameCache := hs[h].nameCache) == hs[h]
         && (hs[h].nameCache.Some? ==> hs2[h].nameCache == hs[h].nameCache)
  }

  lemma NamesSettledTransitive(hs1: seq<Hylite>, hs2: seq<Hylite>, hs3: seq<Hylite>)
    requires NamesSettled(hs1, hs2) && NamesSettled(hs2, hs3)
    ensures NamesSettled(hs1, hs3)
  {
    forall h | 0 <= h < |hs1| ensures hs3[h].(nameCache := hs1[h].nameCache) == hs1[h] {
      assert hs2[h].(nameCache := hs1[h].nameCache) == hs1[h];
      assert hs3[h].(nameCache := hs2[h].nameCache) == hs2[h];
    }
  }

  /** Settling names keeps a registry valid: no link depends on a name. */
  lemma NamesSettledKeepsValid(reg: Registry, hs: seq<Hylite>)
    requires Valid(reg) && NamesSettled(reg.hylites, hs)
    ensures Valid(Registry(reg.tree, hs))
  {
    var r := Registry(reg.tree, hs);
    forall h | 0 <= h < |hs| ensures hs[h].attributes == reg.hylites[h].attributes {
      assert hs[h].(nameCache := reg.hylites[h].nameCache) == reg.hylites[h];
    }
    forall n | 0 <= n < |reg.tree| ensures NodeLinked(r, n) {
      assert NodeLinked(reg, n);
    }
    forall h | 0 <= h < |hs| ensures HyliteLinked(r, h) {
      assert HyliteLinked(reg, h);
    }
  }

  /** Once settled, a hylite's visibility does not change when other names are settled later. */
  lemma {:induction false} ShowsKept(v: View, h: nat, hs: seq<Hylite>, hs2: seq<Hylite>)
    requires h < |hs| && NamesSettled(hs, hs2) && Settled(v, h, hs)
    ensures Settled(v, h, hs2) && Shows(v, h, hs2) == Shows(v, h, hs)
  {
    match v
    case Whole =>
    case Empty(_) =>
    case Filtered(src, mode, inc, exc) =>
      ShowsKept(src, h, hs, hs2);
      if Shows(src, h, hs) && mode.Decide? && !NeedsName(mode.decider) {
        assert !Decides(mode.decider, "");
      }
  }

  // ---------------------------------------------------------------------------------------------
  // what a view yields

  /** The node `each_name` starts from: `_Name` under the root, if it exists. */
  function NameRoot(reg: Registry): Option<nat>
    requires WellFormed(reg.tree)
  {
    Seek(reg.tree, 0, "_Name")
  }

  /** The name nodes among `ns` that a view yields: all of them for the set itself; for a view
      those whose first referring hylite exists and shows. */
  function SelectNames(reg: Registry, v: View, ns: seq<nat>): (r: seq<nat>)
    requires forall i :: 0 <= i < |ns| ==> ns[i] < |reg.tree|
    ensures forall i :: 0 <= i < |r| ==> r[i] in ns
    ensures v != Whole ==> forall i :: 0 <= i < |r| ==> reg.tree[r[i]].hyliteRefs != []
    decreases |ns|
  {
    if ns == [] then []
    else
      var n := ns[|ns| - 1];
      var before := SelectNames(reg, v, ns[..|ns| - 1]);
      var keep := v == Whole || (reg.tree[n].hyliteRefs != [] && RefShows(reg, v, n));
      if keep then before + [n] else before
  }

  /** The first hylite node `n` refers to shows in view `v`. */
  predicate RefShows(reg: Registry, v: View, n: nat)
    requires n < |reg.tree| && reg.tree[n].hyliteRefs != []
  {
    reg.tree[n].hyliteRefs[0] < |reg.hylites| && Shows(v, reg.tree[n].hyliteRefs[0], reg.hylites)
  }

  /** `view.each_name`: the name nodes yielded, in the order of the walk below `_Name`. */
  function EachNameSpec(reg: Registry, v: View): seq<nat>
    requires WellFormed(reg.tree)
  {
    match NameRoot(reg)
    case None => []
    case Some(m) => SelectNames(reg, v, Walk(reg.tree, m))
  }

  /** `hy.anonymous?` for hylite `h` of the set. */
  predicate IsAnon(reg: Registry, h: nat)
    requires WellFormed(reg.tree) && h < |reg.hylites|
  {
    CitesNodesOf(reg.tree, reg.hylites[h].attributes) && Anonymous(reg.tree, reg.hylites[h])
  }

  /** The anonymous hylites among the first `k` that show in view `v`. */
  function SelectAnon(reg: Registry, v: View, k: nat): (r: seq<nat>)
    requires WellFormed(reg.tree) && k <= |reg.hylites|
    ensures forall i :: 0 <= i < |r| ==> r[i] < k
  {
    if k == 0 then []
    else
      var before := SelectAnon(reg, v, k - 1);
      if IsAnon(reg, k - 1) && Shows(v, k - 1, reg.hylites) then before + [k - 1] else before
  }

  /** `view.each_anon`: the anonymous hylites yielded, in creation order. */
  function EachAnonSpec(reg: Registry, v: View): seq<nat>
    requires WellFormed(reg.tree)
  {
    SelectAnon(reg, v, |reg.hylites|)
  }

  /** `each_anon` yields exactly the anonymous hylites that show, each once, in creation order. */
  lemma {:induction false} SelectAnonExact(reg: Registry, v: View, k: nat)
    requires WellFormed(reg.tree) && k <= |reg.hylites|
    ensures forall h :: 0 <= h < |reg.hylites| ==>
              (h in SelectAnon(reg, v, k) <==> h < k && IsAnon(reg, h) && Shows(v, h, reg.hylites))
  {
    if k > 0 {
      SelectAnonExact(reg, v, k - 1);
      var before := SelectAnon(reg, v, k - 1);
      var keep := IsAnon(reg, k - 1) && Shows(v, k - 1, reg.hylites);
      assert SelectAnon(reg, v, k) == if keep then before + [k - 1] else before;
      forall h | 0 <= h < |reg.hylites|
        ensures h in SelectAnon(reg, v, k) <==> h < k && IsAnon(reg, h) && Shows(v, h, reg.hylites)
      {
        assert h in before <==> h < k - 1 && IsAnon(reg, h) && Shows(v, h, reg.hylites);
        if keep {
          assert h in before + [k - 1] <==> h in before || h == k - 1;
        }
      }
    }
  }

  /** A view's `each_name` yields exactly the walked name nodes whose first referring hylite
      shows; the set itself yields every walked node. */
  lemma {:induction false} SelectNamesExact(reg: Registry, v: View, ns: seq<nat>)
    requires forall i :: 0 <= i < |ns| ==> ns[i] < |reg.tree|
    ensures forall n :: n in SelectNames(reg, v, ns) <==>
              n in ns && (v == Whole || (reg.tree[n].hyliteRefs != [] && RefShows(reg, v, n)))
    decreases |ns|
  {
    if ns != [] {
      var init := ns[..|ns| - 1];
      SelectNamesExact(reg, v, init);
      assert ns == init + [ns[|ns| - 1]];
    }
  }

  lemma {:induction false} SelectAnonNone(reg: Registry, v: View, k: nat)
    requires WellFormed(reg.tree) && k <= |reg.hylites|
    requires forall h :: 0 <= h < |reg.hylites| ==> !Shows(v, h, reg.hylites)
    ensures SelectAnon(reg, v, k) == []
  {
    if k > 0 {
      SelectAnonNone(reg, v, k - 1);
    }
  }

  lemma {:induction false} SelectNamesNone(reg: Registry, v: View, ns: seq<nat>)
    requires v != Whole
    requires forall i :: 0 <= i < |ns| ==> ns[i] < |reg.tree|
    requires forall h :: 0 <= h < |reg.hylites| ==> !Shows(v, h, reg.hylites)
    ensures SelectNames(reg, v, ns) == []
    decreases |ns|
  {
    if ns != [] {
      SelectNamesNone(reg, v, ns[..|ns| - 1]);
    }
  }

  /** Every node of `ns` is in the tree, and the first hylite of each one that cites any has
      been judged by `v` with every name it needed settled. */
  ghost predicate NamesReady(reg: Registry, v: View, ns: seq<nat>)
  {
    forall i :: 0 <= i < |ns| ==>
      && ns[i] < |reg.tree|
      && (reg.tree[ns[i]].hyliteRefs != [] ==>
            reg.tree[ns[i]].hyliteRefs[0] < |reg.hylites| && Settled(v, reg.tree[ns[i]].hyliteRefs[0], reg.hylites))
  }

  /** Settling more names does not change which of the already judged name nodes `each_name`
      yields. */
  lemma {:induction false} SelectNamesKept(reg: Registry, hs: seq<Hylite>, v: View, ns: seq<nat>)
    requires NamesSettled(reg.hylites, hs) && NamesReady(reg, v, ns)
    ensures SelectNames(Registry(reg.tree, hs), v, ns) == SelectNames(reg, v, ns)
    decreases |ns|
  {
    if ns != [] {
      var n := ns[|ns| - 1];
      SelectNamesKept(reg, hs, v, ns[..|ns| - 1]);
      if reg.tree[n].hyliteRefs != [] {
        ShowsKept(v, reg.tree[n].hyliteRefs[0], reg.hylites, hs);
      }
    }
  }

  /** One node more for `each_name`: once the first hylite of `n` has been judged (settling
      names into `hs`), the nodes so far are yielded as before and `n` joins them when it shows. */
  lemma SelectNamesStep(reg: Registry, hs: seq<Hylite>, v: View, ns: seq<nat>, n: nat)
    requires Valid(reg) && NamesSettled(reg.hylites, hs) && NamesReady(reg, v, ns) && n < |reg.tree|
    requires reg.tree[n].hyliteRefs != [] ==>
               reg.tree[n].hyliteRefs[0] < |hs| && Settled(v, reg.tree[n].hyliteRefs[0], hs)
    ensures Valid(Registry(reg.tree, hs)) && NamesReady(Registry(reg.tree, hs), v, ns + [n])
    ensures SelectNames(Registry(reg.tree, hs), v, ns + [n]) ==
              SelectNames(reg, v, ns) +
              (if v == Whole || (reg.tree[n].hyliteRefs != [] && Shows(v, reg.tree[n].hyliteRefs[0], hs)) then [n] else [])
  {
    var r := Registry(reg.tree, hs);
    NamesSettledKeepsValid(reg, hs);
    SelectNamesKept(reg, hs, v, ns);
    NamesReadyKept(reg, hs, v, ns);
    NamesReadyAppend(r, v, ns, n);
    assert (ns + [n])[..|ns|] == ns;
  }

  /** Settling more names keeps every judged node judged. */
  lemma NamesReadyKept(reg: Registry, hs: seq<Hylite>, v: View, ns: seq<nat>)
    requires NamesSettled(reg.hylites, hs) && NamesReady(reg, v, ns)
    ensures NamesReady(Registry(reg.tree, hs), v, ns)
  {
    forall i | 0 <= i < |ns| && reg.tree[ns[i]].hyliteRefs != []
      ensures Settled(v, reg.tree[ns[i]].hyliteRefs[0], hs)
    {
      ShowsKept(v, reg.tree[ns[i]].hyliteRefs[0], reg.hylites, hs);
    }
  }

  lemma NamesReadyAppend(r: Registry, v: View, ns: seq<nat>, n: nat)
    requires NamesReady(r, v, ns) && n < |r.tree|
    requires r.tree[n].hyliteRefs != [] ==>
               r.tree[n].hyliteRefs[0] < |r.hylites| && Settled(v, r.tree[n].hyliteRefs[0], r.hylites)
    ensures NamesReady(r, v, ns + [n])
  {
  }

  /** Every anonymous hylite below `k` has been judged by `v` with every name it needed settled. */
  ghost predicate AnonReady(reg: Registry, v: View, k: nat)
    requires WellFormed(reg.tree) && k <= |reg.hylites|
  {
    forall h :: 0 <= h < k && IsAnon(reg, h) ==> Settled(v, h, reg.hylites)
  }

  /** Settling more names does not change which of the already judged hylites `each_anon`
      yields. */
  lemma {:induction false} SelectAnonKept(reg: Registry, hs: seq<Hylite>, v: View, k: nat)
    requires WellFormed(reg.tree) && NamesSettled(reg.hylites, hs) && k <= |reg.hylites|
    requires AnonReady(reg, v, k)
    ensures SelectAnon(Registry(reg.tree, hs), v, k) == SelectAnon(reg, v, k)
  {
    if k > 0 {
      SelectAnonKept(reg, hs, v, k - 1);
      var h := k - 1;
      assert hs[h].(nameCache := reg.hylites[h].nameCache) == reg.hylites[h];
      assert IsAnon(Registry(reg.tree, hs), h) == IsAnon(reg, h);
      if IsAnon(reg, h) {
        ShowsKept(v, h, reg.hylites, hs);
      }
    }
  }

  /** One hylite more for `each_anon`: once hylite `k` has been judged (settling names into
      `hs`), the hylites so far are yielded as before and `k` joins them when it is anonymous and
      shows. */
  lemma SelectAnonStep(reg: Registry, hs: seq<Hylite>, v: View, k: nat)
    requires Valid(reg) && NamesSettled(reg.hylites, hs) && k < |reg.hylites| && AnonReady(reg, v, k)
    requires IsAnon(reg, k) ==> Settled(v, k, hs)
    ensures Valid(Registry(reg.tree, hs)) && AnonReady(Registry(reg.tree, hs), v, k + 1)
    ensures SelectAnon(Registry(reg.tree, hs), v, k + 1) ==
              SelectAnon(reg, v, k) + (if IsAnon(reg, k) && Shows(v, k, hs) then [k] else [])
  {
    var r := Registry(reg.tree, hs);
    NamesSettledKeepsValid(reg, hs);
    SelectAnonKept(reg, hs, v, k);
    forall j | 0 <= j <= k ensures IsAnon(r, j) == IsAnon(reg, j) {
      assert hs[j].(nameCache := reg.hylites[j].nameCache) == reg.hylites[j];
    }
    forall j | 0 <= j < k && IsAnon(r, j) ensures Settled(v, j, hs) {
      ShowsKept(v, j, reg.hylites, hs);
    }
  }

  /** The name `name_str` finds among the attributes of hylite `h`, if any. */
  function NameFound(reg: Registry, h: nat): Option<string>
    requires WellFormed(reg.tree) && h < |reg.hylites|
  {
    if CitesNodesOf(reg.tree, reg.hylites[h].attributes) then LastName(reg.tree, reg.hylites[h].attributes) else None
  }

  /** A view through which no hylite shows yields no name and no anonymous hylite. */
  lemma NothingShows(reg: Registry, v: View)
    requires Valid(reg) && v != Whole
    requires forall h :: 0 <= h < |reg.hylites| ==> !Shows(v, h, reg.hylites)
    ensures EachNameSpec(reg, v) == [] && EachAnonSpec(reg, v) == []
  {
    SelectAnonNone(reg, v, |reg.hylites|);
    if NameRoot(reg).Some? {
      SelectNamesNone(reg, v, Walk(reg.tree, NameRoot(reg).value));
    }
  }

  /** `EmptyHSV` yields nothing, and neither does any view stacked on it. */
  lemma EmptyYieldsNothing(reg: Registry, src: View, mode: Mode, inc: set<nat>, exc: set<nat>)
    requires Valid(reg)
    ensures EachNameSpec(reg, Empty(src)) == [] && EachAnonSpec(reg, Empty(src)) == []
    ensures EachNameSpec(reg, Filtered(Empty(src), mode, inc, exc)) == []
    ensures EachAnonSpec(reg, Filtered(Empty(src), mode, inc, exc)) == []
  {
    var w := Filtered(Empty(src), mode, inc, exc);
    forall h | 0 <= h < |reg.hylites| ensures !Shows(Empty(src), h, reg.hylites) && !Shows(w, h, reg.hylites) {
      assert !Shows(Empty(src), h, reg.hylites);
    }
    NothingShows(reg, Empty(src));
    NothingShows(reg, w);
  }

  /** A view in mode `:include` over the set hides exactly its `@exclude` hylites; in mode
      `:exclude` it shows exactly its `@include` hylites. */
  lemma IncludeExcludeModes(reg: Registry, inc: set<nat>, exc: set<nat>, h: nat)
    requires Valid(reg) && h < |reg.hylites|
    ensures h in EachAnonSpec(reg, Filtered(Whole, Include, inc, exc)) <==> IsAnon(reg, h) && h !in exc
    ensures h in EachAnonSpec(reg, Filtered(Whole, Exclude, inc, exc)) <==> IsAnon(reg, h) && h in inc
  {
    var vi := Filtered(Whole, Include, inc, exc);
    var ve := Filtered(Whole, Exclude, inc, exc);
    SelectAnonExact(reg, vi, |reg.hylites|);
    SelectAnonExact(reg, ve, |reg.hylites|);
    assert Shows(vi, h, reg.hylites) <==> h !in exc;
    assert Shows(ve, h, reg.hylites) <==> h in inc;
  }

  /** Stacking a view on a view only narrows what is yielded. */
  lemma StackingNarrows(reg: Registry, v: View, mode: Mode, inc: set<nat>, exc: set<nat>)
    requires Valid(reg)
    ensures forall h :: h in EachAnonSpec(reg, Filtered(v, mode, inc, exc)) ==> h in EachAnonSpec(reg, v)
    ensures v != Whole ==> forall n :: n in EachNameSpec(reg, Filtered(v, mode, inc, exc)) ==> n in EachNameSpec(reg, v)
  {
    var w := Filtered(v, mode, inc, exc);
    SelectAnonExact(reg, v, |reg.hylites|);
    SelectAnonExact(reg, w, |reg.hylites|);
    forall h | h in EachAnonSpec(reg, w) ensures h in EachAnonSpec(reg, v) {
      assert h < |reg.hylites|;
    }
    if NameRoot(reg).Some? {
      SelectNamesExact(reg, v, Walk(reg.tree, NameRoot(reg).value));
      SelectNamesExact(reg, w, Walk(reg.tree, NameRoot(reg).value));
    }
  }

  /** `filter_name(name)` over the set yields the name nodes whose first hylite is settled under
      exactly `name`, and only name nodes that have a hylite. */
  lemma FilterNameYields(reg: Registry, name: string, n: nat)
    requires Valid(reg) && n < |reg.tree|
    ensures n in EachNameSpec(reg, FilterName(Whole, name)) <==>
              && NameRoot(reg).Some? && n in Walk(reg.tree, NameRoot(reg).value)
              && reg.tree[n].hyliteRefs != []
              && reg.tree[n].hyliteRefs[0] < |reg.hylites|
              && reg.hylites[reg.tree[n].hyliteRefs[0]].nameCache == Some(name)
  {
    var v := FilterName(Whole, name);
    assert NodeLinked(reg, n);
    if reg.tree[n].hyliteRefs != [] {
      var h := reg.tree[n].hyliteRefs[0];
      assert Shows(v, h, reg.hylites) <==> reg.hylites[h].nameCache == Some(name);
      assert RefShows(reg, v, n) <==> Shows(v, h, reg.hylites);
    }
    if NameRoot(reg).Some? {
      SelectNamesExact(reg, v, Walk(reg.tree, NameRoot(reg).value));
    }
  }

  /** `filter_group(groups)` over the set yields the anonymous hylites whose settled name starts
      with one of `groups`; with no groups it yields nothing. */
  lemma FilterGroupYields(reg: Registry, groups: seq<string>, h: nat)
    requires Valid(reg) && h < |reg.hylites|
    ensures h in EachAnonSpec(reg, FilterGroup(Whole, groups)) <==>
              && IsAnon(reg, h)
              && reg.hylites[h].nameCache.Some?
              && exists i :: 0 <= i < |groups| && IsPrefix(groups[i], reg.hylites[h].nameCache.value)
    ensures groups == [] ==> EachAnonSpec(reg, FilterGroup(Whole, groups)) == []
  {
    var v := FilterGroup(Whole, groups);
    SelectAnonExact(reg, v, |reg.hylites|);
    var c := reg.hylites[h].nameCache;
    if c.Some? {
      forall i | 0 <= i < |groups| ensures InGroup(groups[i], c.value) <==> IsPrefix(groups[i], c.value) {
        InGroupIsPrefix(groups[i], c.value);
      }
    }
    assert Shows(v, h, reg.hylites) <==> c.Some? && exists i :: 0 <= i < |groups| && InGroup(groups[i], c.value);
    if groups == [] {
      forall g | 0 <= g < |reg.hylites| ensures !Shows(v, g, reg.hylites) {
        assert !Decides(InGroups(groups), "");
      }
      NothingShows(reg, v);
    }
  }

  // ---------------------------------------------------------------------------------------------
  // filter_attr

  /** The hylites referring to the nodes the first `k` attribute paths find, and whether any of
      those nodes had a hylite (`found_any`). */
  function AttrRefs(reg: Registry, attrs: seq<string>, k: nat): (r: (set<nat>, bool))
    requires WellFormed(reg.tree) && k <= |attrs|
    ensures r.1 <==> r.0 != {}
  {
    if k == 0 then ({}, false)
    else
      var (inc, found) := AttrRefs(reg, attrs, k - 1);
      var node := Seek(reg.tree, 0, attrs[k - 1]);
      if node.Some? && reg.tree[node.value].hyliteRefs != [] then
        assert reg.tree[node.value].hyliteRefs[0] in inc + set x | x in reg.tree[node.value].hyliteRefs;
        (inc + set x | x in reg.tree[node.value].hyliteRefs, true)
      else (inc, found)
  }

  /** `set.filter_attr(attrs)` on the hylite set: a view in mode `:exclude` including every hylite
      that refers to a node one of `attrs` finds, or an `EmptyHSV` when no such node has one. */
  function FilterAttrSpec(reg: Registry, attrs: seq<string>): View
    requires WellFormed(reg.tree)
  {
    var (inc, found) := AttrRefs(reg, attrs, |attrs|);
    if found then Filtered(Whole, Exclude, inc, {}) else Empty(Whole)
  }

  lemma {:induction false} AttrRefsExact(reg: Registry, attrs: seq<string>, k: nat)
    requires WellFormed(reg.tree) && k <= |attrs|
    ensures forall h :: h in AttrRefs(reg, attrs, k).0 <==>
              exists i :: 0 <= i < k && Seek(reg.tree, 0, attrs[i]).Some? && h in reg.tree[Seek(reg.tree, 0, attrs[i]).value].hyliteRefs
  {
    if k > 0 {
      AttrRefsExact(reg, attrs, k - 1);
    }
  }

  /** `filter_attr` answers an `EmptyHSV` exactly when none of the paths finds a node that a
      hylite refers to. */
  lemma FilterAttrEmpty(reg: Registry, attrs: seq<string>)
    requires WellFormed(reg.tree)
    ensures FilterAttrSpec(reg, attrs).Empty? <==>
              forall i :: 0 <= i < |attrs| && Seek(reg.tree, 0, attrs[i]).Some? ==> reg.tree[Seek(reg.tree, 0, attrs[i]).value].hyliteRefs == []
  {
    AttrRefsExact(reg, attrs, |attrs|);
    var (inc, found) := AttrRefs(reg, attrs, |attrs|);
    if found {
      var x :| x in inc;
    }
    if exists i :: 0 <= i < |attrs| && Seek(reg.tree, 0, attrs[i]).Some? && reg.tree[Seek(reg.tree, 0, attrs[i]).value].hyliteRefs != [] {
      var i :| 0 <= i < |attrs| && Seek(reg.tree, 0, attrs[i]).Some? && reg.tree[Seek(reg.tree, 0, attrs[i]).value].hyliteRefs != [];
      assert reg.tree[Seek(reg.tree, 0, attrs[i]).value].hyliteRefs[0] in inc;
    }
  }

  /** `filter_attr` keeps exactly the anonymous hylites that cite a node one of the paths finds
      (the OR of the attributes). */
  lemma FilterAttrKeeps(reg: Registry, attrs: seq<string>, h: nat)
    requires Valid(reg) && h < |reg.hylites|
    ensures h in EachAnonSpec(reg, FilterAttrSpec(reg, attrs)) <==>
              && IsAnon(reg, h)
              && exists i :: 0 <= i < |attrs| && Seek(reg.tree, 0, attrs[i]).Some? && Seek(reg.tree, 0, attrs[i]).value in reg.hylites[h].attributes
  {
    var v := FilterAttrSpec(reg, attrs);
    var (inc, found) := AttrRefs(reg, attrs, |attrs|);
    AttrRefsExact(reg, attrs, |attrs|);
    SelectAnonExact(reg, v, |reg.hylites|);
    assert Shows(v, h, reg.hylites) <==> h in inc;
    forall i | 0 <= i < |attrs| && Seek(reg.tree, 0, attrs[i]).Some?
      ensures h in reg.tree[Seek(reg.tree, 0, attrs[i]).value].hyliteRefs <==> Seek(reg.tree, 0, attrs[i]).value in reg.hylites[h].attributes
    {
      LinkedBothWays(reg, Seek(reg.tree, 0, attrs[i]).value, h);
    }
  }
}

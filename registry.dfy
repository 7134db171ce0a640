/** `HyliteSet` of lib/rb/esus/hylib.rb as a class: its attribute tree (an arena of nodes, root
    at index 0), its hylites in creation order, and the anonymous-name counter `@@anon_id`. The
    methods are the loops of the program, each proved against the functions of `Trie`,
    `Entity`, `Parsing` and `Views`. */
module HyliteSets {
  import opened Strings
  import opened Trie
  import opened Entity
  import opened Parsing
  import opened Views

  class HyliteSet {
    /** `@attribTree`, as the arena of its nodes. */
    var tree: seq<AttribNode>
    /** `@hylites`. */
    var hylites: seq<Hylite>
    /** `@@anon_id`: the number the next anonymous hylite is named with. */
    var anonId: nat

    function Contents(): Registry
      reads this
    {
      Registry(tree, hylites)
    }

    /** Hylites and tree nodes are linked both ways, and the counter starts at one. */
    ghost predicate Valid()
      reads this
    {
      Parsing.Valid(Contents()) && anonId >= 1
    }

    /** `HyliteSet.new`, with the counter at its initial value. */
    constructor ()
      ensures Contents() == EmptyRegistry() && anonId == 1 && Valid()
    {
      tree := [NewNode("_Root", None)];
      hylites := [];
      anonId := 1;
    }

    // -------------------------------------------------------------------------------------------
    // the loops of AttribNode

    /** `node.seek(path)` on node `start`. */
    method Seek(start: nat, path: string) returns (r: Option<nat>)
      requires WellFormed(tree) && start < |tree|
      ensures r == Trie.Seek(tree, start, path)
    {
      var segs := Segments(path, '-');
      var runner: nat := start;
      var i := 0;
      assert segs[i..] == segs;
      while i < |segs|
        invariant 0 <= i <= |segs| && runner < |tree|
        invariant SeekSegments(tree, runner, segs[i..]) == SeekSegments(tree, start, segs)
      {
        assert segs[i..][1..] == segs[i + 1..];
        if segs[i] !in tree[runner].downRefs {
          return None;
        }
        runner := tree[runner].downRefs[segs[i]];
        i := i + 1;
      }
      return Some(runner);
    }

    /** `node.seekMake(path)` on node `start`: every missing segment becomes a new node, entered
        in the child map of its predecessor. */
    method SeekMake(start: nat, path: string) returns (n: nat)
      requires WellFormed(tree) && start < |tree|
      modifies this
      ensures (tree, n) == Make(old(tree), start, path)
      ensures hylites == old(hylites) && anonId == old(anonId)
    {
      var t;
      t, n := MakeWalk(tree, start, path);
      tree := t;
    }

    /** `node.level`: count the parent links up to the root. */
    method Level(n: nat) returns (lev: nat)
      requires WellFormed(tree) && n < |tree|
      ensures lev == Trie.Level(tree, n)
    {
      lev := 0;
      var runner: nat := n;
      while tree[runner].upRef.Some?
        invariant runner < |tree|
        invariant lev + Trie.Level(tree, runner) == Trie.Level(tree, n)
        decreases runner
      {
        lev := lev + 1;
        runner := tree[runner].upRef.value;
      }
    }

    // -------------------------------------------------------------------------------------------
    // the loops of Hylite

    /** `hy.anonymous?` for hylite `h`: no attribute has, on its way up, a node `_Name` whose
        parent is `_Root`. */
    method IsAnonymous(h: nat) returns (b: bool)
      requires Parsing.Valid(Contents()) && h < |hylites|
      ensures b == IsAnon(Contents(), h)
    {
      ValidCites(Contents(), h);
      var attrs := hylites[h].attributes;
      var any := false;
      var i := 0;
      while i < |attrs| && !any
        invariant 0 <= i <= |attrs|
        invariant any <==> exists j :: 0 <= j < i && ChainHasName(tree, attrs[j])
      {
        var runner: nat := attrs[i];
        var found := false;
        while tree[runner].upRef.Some? && !found
          invariant runner < |tree|
          invariant ChainHasName(tree, attrs[i]) <==> found || ChainHasName(tree, runner)
          decreases runner + (if found then 0 else 1)
        {
          var up := tree[runner].upRef.value;
          if tree[runner].name == "_Name" && tree[up].name == "_Root" {
            found := true;
          } else {
            runner := up;
          }
        }
        any := found;
        i := i + 1;
      }
      b := !any;
    }

    /** The attribute loop of `hy.name_str`: the name the last attribute below `_Name` spells,
        if any. */
    method FindName(h: nat) returns (found: Option<string>)
      requires Parsing.Valid(Contents()) && h < |hylites|
      ensures found == NameFound(Contents(), h)
    {
      ValidCites(Contents(), h);
      var attrs := hylites[h].attributes;
      found := None;
      var i := 0;
      while i < |attrs|
        invariant 0 <= i <= |attrs|
        invariant found == LastName(tree, attrs[..i])
      {
        assert attrs[..i + 1][..i] == attrs[..i];
        var path := ToA(tree, attrs[i]);
        if |path| >= 2 && path[0] == "_Root" && path[1] == "_Name" {
          found := Some(Join(path[2..], '-'));
        }
        i := i + 1;
      }
      assert attrs[..i] == attrs;
    }

    /** `hy.name_str` for hylite `h`: the cached name if there is one; otherwise the name the
        attributes give or, failing that, `_Anon-<counter>` with the counter then advanced; the
        result is cached. */
    method NameStr(h: nat) returns (name: string)
      requires Valid() && h < |hylites|
      modifies this
      ensures Valid() && tree == old(tree) && NamesSettled(old(hylites), hylites)
      ensures forall g :: 0 <= g < |hylites| && g != h ==> hylites[g] == old(hylites[g])
      ensures hylites[h].nameCache == Some(name)
      ensures old(hylites[h].nameCache).Some? ==> name == old(hylites[h].nameCache).value && anonId == old(anonId)
      ensures old(hylites[h].nameCache).None? && NameFound(old(Contents()), h).Some? ==>
                name == NameFound(old(Contents()), h).value && anonId == old(anonId)
      ensures old(hylites[h].nameCache).None? && NameFound(old(Contents()), h).None? ==>
                name == AnonName(old(anonId)) && anonId == old(anonId) + 1
    {
      if hylites[h].nameCache.Some? {
        return hylites[h].nameCache.value;
      }
      var found := FindName(h);
      if found.Some? {
        name := found.value;
      } else {
        name := "_Anon-" + Decimal(anonId);
        anonId := anonId + 1;
      }
      ghost var before := hylites;
      hylites := hylites[h := hylites[h].(nameCache := Some(name))];
      NamesSettledKeepsValid(Registry(tree, before), hylites);
    }

    // -------------------------------------------------------------------------------------------
    // parse_hylite_string

    /** `node.hyliteRefs << hy` and `hy.add_attribute(node)`: node `n` and hylite `h` cite each
        other. */
    method Link(n: nat, h: nat)
      requires WellFormed(tree) && n < |tree| && h < |hylites|
      modifies this
      ensures Contents() == Parsing.Link(old(Contents()), n, h) && anonId == old(anonId)
    {
      hylites := hylites[h := AddAttribute(hylites[h], n)];
      tree := tree[n := tree[n].(hyliteRefs := tree[n].hyliteRefs + [h])];
    }

    /** The node of the name attribute string `nas`, sought first and made when missing. */
    method NameNode(nas: string) returns (n: nat)
      requires WellFormed(tree)
      modifies this
      ensures var found := Trie.Seek(old(tree), 0, nas);
        (tree, n) == (if found.Some? then (old(tree), found.value) else Make(old(tree), 0, nas))
      ensures hylites == old(hylites) && anonId == old(anonId)
    {
      var found := Seek(0, nas);
      if found.None? {
        n := SeekMake(0, nas);
      } else {
        n := found.value;
      }
    }

    /** The first half of `parse_hylite_string`: the hylite the name attribute string `nas`
        denotes, created (and linked with its name node) when there is none. */
    method ResolveName(nas: string) returns (h: nat)
      requires Parsing.Valid(Contents())
      modifies this
      ensures (Contents(), h) == Resolve(old(Contents()), nas)
      ensures anonId == old(anonId)
    {
      if nas == "_Name-" {
        hylites := hylites + [NewHylite()];
        return |hylites| - 1;
      }
      ghost var reg := Contents();
      var n := NameNode(nas);
      if tree[n].hyliteRefs != [] {
        assert n < |reg.tree| && tree[n].hyliteRefs == reg.tree[n].hyliteRefs;
        assert NodeLinked(reg, n);
        h := tree[n].hyliteRefs[0];
      } else {
        h := |hylites|;
        hylites := hylites + [NewHylite()];
        Link(n, h);
      }
    }

    /** One attribute token of `parse_hylite_string`: its node, made when missing, and hylite `h`
        cite each other. */
    method AttachOne(h: nat, token: string)
      requires WellFormed(tree) && h < |hylites|
      modifies this
      ensures Contents() == Parsing.AttachOne(old(Contents()), h, token) && anonId == old(anonId)
    {
      var a := SeekMake(0, token);
      Link(a, h);
    }

    /** The attribute loop of `parse_hylite_string`: every token in turn is attached to `h`. */
    method AttachAll(h: nat, tokens: seq<string>)
      requires WellFormed(tree) && h < |hylites|
      modifies this
      ensures Contents() == Parsing.AttachAll(old(Contents()), h, tokens) && anonId == old(anonId)
    {
      var i := 0;
      assert tokens[i..] == tokens;
      while i < |tokens|
        invariant 0 <= i <= |tokens| && WellFormed(tree) && h < |hylites|
        invariant Parsing.AttachAll(Contents(), h, tokens[i..]) == Parsing.AttachAll(old(Contents()), h, tokens)
        invariant anonId == old(anonId)
      {
        AttachAllStep(Contents(), h, tokens, i);
        AttachOne(h, tokens[i]);
        i := i + 1;
      }
      assert tokens[i..] == [];
    }

    /** `hy.texts << text` when the text is not empty. */
    method AddText(h: nat, text: string)
      requires h < |hylites|
      modifies this
      ensures Contents() == Parsing.AddText(old(Contents()), h, text) && anonId == old(anonId)
    {
      if |text| > 0 {
        hylites := hylites[h := hylites[h].(texts := hylites[h].texts + [text])];
      }
    }

    /** `hy.locations << loc` on hylite `h`. */
    method AddLocation(h: nat, loc: Location)
      requires Valid() && h < |hylites|
      modifies this
      ensures Contents() == Parsing.AddLocation(old(Contents()), h, loc)
      ensures Valid() && anonId == old(anonId)
    {
      AddLocationKeepsValid(Contents(), h, loc);
      hylites := hylites[h := hylites[h].(locations := hylites[h].locations + [loc])];
    }

    /** `parse_hylite_string(string, self)`: the hylite the annotation is added to. */
    method Parse(s: string) returns (h: nat)
      requires Valid()
      requires exists i :: 0 <= i < |s| && s[i] != ':'
      modifies this
      ensures (Contents(), h) == Parsing.Parse(old(Contents()), s)
      ensures Valid() && anonId == old(anonId)
    {
      ParseKeepsValid(Contents(), s);
      var (name, atts, text) := Sections(s);
      h := ResolveName(NameSub(name, "_Name-"));
      AttachAll(h, Segments(Strip(atts), ' '));
      AddText(h, text);
    }

    // -------------------------------------------------------------------------------------------
    // walkers and views

    /** `each_attr`: every node of the tree but the root, in the walk order. */
    method EachAttr() returns (nodes: seq<nat>)
      requires WellFormed(tree)
      ensures nodes == Walk(tree, 0)
    {
      nodes := EachWalker(tree, 0);
    }

    /** `hylite_is_visible(hy)` of one view level with mode `mode` and sets `inc` and `exc`; a
        decider that needs the name settles it. */
    method LevelVisible(mode: Mode, inc: set<nat>, exc: set<nat>, h: nat) returns (b: bool)
      requires Valid() && h < |hylites|
      modifies this
      ensures Valid() && tree == old(tree) && NamesSettled(old(hylites), hylites)
      ensures forall g :: 0 <= g < |hylites| && g != h ==> hylites[g] == old(hylites[g])
      ensures anonId >= old(anonId)
      ensures mode.Decide? && NeedsName(mode.decider) ==> hylites[h].nameCache.Some?
      ensures b == LevelShows(mode, inc, exc, h, hylites[h].nameCache)
    {
      match mode
      case Include =>
        b := h !in exc;
      case Exclude =>
        b := h in inc;
      case Decide(NameIs(x)) =>
        var name := NameStr(h);
        b := x == name;
      case Decide(InGroups(gs)) =>
        b := AnyGroup(gs, h);
    }

    /** `hylite_is_visible(hy)` of view `v` and of every view below it, innermost first, as the
        stacked `each_name`/`each_anon` blocks ask it; deciders settle the name they compare. */
    method Visible(v: View, h: nat) returns (b: bool)
      requires Valid() && h < |hylites|
      modifies this
      ensures Valid() && tree == old(tree) && NamesSettled(old(hylites), hylites)
      ensures forall g :: 0 <= g < |hylites| && g != h ==> hylites[g] == old(hylites[g])
      ensures anonId >= old(anonId)
      ensures Settled(v, h, hylites) && b == Shows(v, h, hylites)
      decreases v
    {
      match v
      case Whole =>
        b := true;
      case Empty(_) =>
        b := false;
      case Filtered(src, mode, inc, exc) =>
        b := Visible(src, h);
        if b {
          ghost var before := hylites;
          b := LevelVisible(mode, inc, exc, h);
          NamesSettledTransitive(old(hylites), before, hylites);
          ShowsKept(src, h, before, hylites);
        }
        assert Shows(v, h, hylites) == (Shows(src, h, hylites) && LevelShows(mode, inc, exc, h, hylites[h].nameCache));
    }

    /** `groups.any? { |group| hy.name_str.index(group) == 0 }`. */
    method AnyGroup(gs: seq<string>, h: nat) returns (b: bool)
      requires Valid() && h < |hylites|
      modifies this
      ensures Valid() && tree == old(tree) && NamesSettled(old(hylites), hylites)
      ensures forall g :: 0 <= g < |hylites| && g != h ==> hylites[g] == old(hylites[g])
      ensures anonId >= old(anonId)
      ensures gs != [] ==> hylites[h].nameCache.Some?
      ensures b <==> hylites[h].nameCache.Some? && Decides(InGroups(gs), hylites[h].nameCache.value)
    {
      b := false;
      var i := 0;
      while i < |gs| && !b
        invariant 0 <= i <= |gs|
        invariant Valid() && tree == old(tree) && NamesSettled(old(hylites), hylites)
        invariant forall g :: 0 <= g < |hylites| && g != h ==> hylites[g] == old(hylites[g])
        invariant anonId >= old(anonId)
        invariant i > 0 ==> hylites[h].nameCache.Some?
        invariant b <==> hylites[h].nameCache.Some? && exists j :: 0 <= j < i && InGroup(gs[j], hylites[h].nameCache.value)
      {
        ghost var before := hylites;
        var name := NameStr(h);
        NamesSettledTransitive(old(hylites), before, hylites);
        b := InGroup(gs[i], name);
        i := i + 1;
      }
      if !b && hylites[h].nameCache.Some? {
        assert i == |gs|;
      }
    }

    /** The body of `each_name`'s walk for name node `n`: whether it is yielded, judged by its
        first hylite; the nodes judged before are yielded as they were. */
    method JudgeName(v: View, n: nat, ghost done: seq<nat>) returns (shows: bool)
      requires Valid() && n < |tree| && NamesReady(Contents(), v, done)
      modifies this
      ensures Valid() && tree == old(tree) && NamesSettled(old(hylites), hylites) && anonId >= old(anonId)
      ensures NamesReady(Contents(), v, done + [n])
      ensures SelectNames(Contents(), v, done + [n]) == SelectNames(old(Contents()), v, done) + (if shows then [n] else [])
    {
      assert NodeLinked(Contents(), n);
      shows := v == Whole;
      if v != Whole && tree[n].hyliteRefs != [] {
        shows := Visible(v, tree[n].hyliteRefs[0]);
      }
      SelectNamesStep(old(Contents()), hylites, v, done, n);
    }

    /** `view.each_name`: the name nodes yielded, in walk order; the deciders settle the names
        of the hylites they are asked about. */
    method EachName(v: View) returns (nodes: seq<nat>)
      requires Valid()
      modifies this
      ensures Valid() && tree == old(tree) && NamesSettled(old(hylites), hylites) && anonId >= old(anonId)
      ensures nodes == EachNameSpec(Contents(), v)
    {
      if v.Empty? {
        EmptyYieldsNothing(Contents(), v.source, Include, {}, {});
        return [];
      }
      var m := Seek(0, "_Name");
      if m.None? {
        return [];
      }
      var walk := EachWalker(tree, m.value);
      nodes := [];
      ghost var done: seq<nat> := [];
      var i := 0;
      while i < |walk|
        invariant 0 <= i <= |walk| && done == walk[..i]
        invariant Valid() && tree == old(tree) && NamesSettled(old(hylites), hylites) && anonId >= old(anonId)
        invariant NamesReady(Contents(), v, done) && nodes == SelectNames(Contents(), v, done)
      {
        ghost var before := hylites;
        TakeOneMore(walk, i);
        var shows := JudgeName(v, walk[i], done);
        NamesSettledTransitive(old(hylites), before, hylites);
        if shows {
          nodes := nodes + [walk[i]];
        }
        done := done + [walk[i]];
        i := i + 1;
      }
      assert done == walk;
    }

    /** `view.each_anon`: the anonymous hylites yielded, in creation order; the deciders settle
        the names of the hylites they are asked about. */
    method EachAnon(v: View) returns (anon: seq<nat>)
      requires Valid()
      modifies this
      ensures Valid() && tree == old(tree) && NamesSettled(old(hylites), hylites) && anonId >= old(anonId)
      ensures anon == EachAnonSpec(Contents(), v)
    {
      if v.Empty? {
        EmptyYieldsNothing(Contents(), v.source, Include, {}, {});
        return [];
      }
      anon := [];
      var k := 0;
      while k < |hylites|
        invariant 0 <= k <= |hylites|
        invariant Valid() && tree == old(tree) && NamesSettled(old(hylites), hylites) && anonId >= old(anonId)
        invariant AnonReady(Contents(), v, k) && anon == SelectAnon(Contents(), v, k)
      {
        ghost var before := Contents();
        var a := IsAnonymous(k);
        var shows := false;
        if a {
          shows := Visible(v, k);
        }
        NamesSettledTransitive(old(hylites), before.hylites, hylites);
        SelectAnonStep(before, hylites, v, k);
        if shows {
          anon := anon + [k];
        }
        k := k + 1;
      }
    }

    /** `filter_attr(attrs)` on the set: collect the hylites of every node an attribute path
        finds; an `EmptyHSV` when there are none. */
    method FilterAttr(attrs: seq<string>) returns (v: View)
      requires WellFormed(tree)
      ensures v == FilterAttrSpec(Contents(), attrs)
    {
      var found := false;
      var inc: set<nat> := {};
      var i := 0;
      while i < |attrs|
        invariant 0 <= i <= |attrs|
        invariant (inc, found) == AttrRefs(Contents(), attrs, i)
      {
        var node := Seek(0, attrs[i]);
        if node.Some? && tree[node.value].hyliteRefs != [] {
          inc := inc + set x | x in tree[node.value].hyliteRefs;
          found := true;
        }
        i := i + 1;
      }
      if found {
        v := Filtered(Whole, Exclude, inc, {});
      } else {
        v := Empty(Whole);
      }
    }
  }
}

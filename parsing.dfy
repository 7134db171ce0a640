/** `Scanner#parse_hylite_string` of lib/rb/esus/hylib.rb as a function on the contents of a
    hylite set: split the annotation into name, attribute and text sections, find or create the
    hylite the name denotes, cross-link every attribute and keep the text. */
module Parsing {
  import opened Strings
  import opened Trie
  import opened Entity

  /** The contents of a `HyliteSet`: the attribute tree (root `_Root` at index 0) and the hylites
      in the order they were created; a node refers to a hylite by its index in `hylites`. */
  datatype Registry = Registry(tree: seq<AttribNode>, hylites: seq<Hylite>)

  /** `HyliteSet.new`: a bare root and no hylites. */
  function EmptyRegistry(): (r: Registry)
    ensures Valid(r)
  {
    Registry([NewNode("_Root", None)], [])
  }

  /** The tree is well formed, every node is linked into its parent, and the root is `_Root`. */
  ghost predicate TreeOk(r: Registry)
  {
    WellFormed(r.tree) && Registered(r.tree) && r.tree[0].name == "_Root"
  }

  /** Every hylite node `n` refers to cites `n`. */
  ghost predicate NodeLinked(r: Registry, n: nat)
    requires n < |r.tree|
  {
    forall k :: 0 <= k < |r.tree[n].hyliteRefs| ==>
      r.tree[n].hyliteRefs[k] < |r.hylites| && n in r.hylites[r.tree[n].hyliteRefs[k]].attributes
  }

  /** Hylite `h` cites each node at most once, and every node it cites refers back to it. */
  ghost predicate HyliteLinked(r: Registry, h: nat)
    requires h < |r.hylites|
  {
    && NoDuplicates(r.hylites[h].attributes)
    && forall i :: 0 <= i < |r.hylites[h].attributes| ==>
         r.hylites[h].attributes[i] < |r.tree| && h in r.tree[r.hylites[h].attributes[i]].hyliteRefs
  }

  ghost predicate RefsOk(r: Registry)
  {
    forall n :: 0 <= n < |r.tree| ==> NodeLinked(r, n)
  }

  ghost predicate AttrsOk(r: Registry)
  {
    forall h :: 0 <= h < |r.hylites| ==> HyliteLinked(r, h)
  }

  /** The invariant every `HyliteSet` keeps: hylites and tree nodes are linked both ways. */
  ghost predicate Valid(r: Registry)
  {
    TreeOk(r) && RefsOk(r) && AttrsOk(r)
  }

  lemma ValidCites(r: Registry, h: nat)
    requires Valid(r) && h < |r.hylites|
    ensures CitesNodesOf(r.tree, r.hylites[h].attributes)
  {
    assert HyliteLinked(r, h);
  }

  /** In a valid registry a node refers to a hylite exactly when the hylite cites the node. */
  lemma LinkedBothWays(r: Registry, n: nat, h: nat)
    requires Valid(r) && n < |r.tree| && h < |r.hylites|
    ensures h in r.tree[n].hyliteRefs <==> n in r.hylites[h].attributes
  {
    assert NodeLinked(r, n) && HyliteLinked(r, h);
    if h in r.tree[n].hyliteRefs {
      var k :| 0 <= k < |r.tree[n].hyliteRefs| && r.tree[n].hyliteRefs[k] == h;
    }
    if n in r.hylites[h].attributes {
      var i :| 0 <= i < |r.hylites[h].attributes| && r.hylites[h].attributes[i] == n;
    }
  }

  /** `r2` is `r` after more annotations were parsed: the tree grew, hylites were only appended,
      and each old hylite only gained attributes and texts. */
  ghost predicate RegistryGrows(r: Registry, r2: Registry)
  {
    && Grows(r.tree, r2.tree)
    && |r.hylites| <= |r2.hylites|
    && forall h :: 0 <= h < |r.hylites| ==>
         && IsPrefixOf(r.hylites[h].attributes, r2.hylites[h].attributes)
         && IsPrefixOf(r.hylites[h].texts, r2.hylites[h].texts)
         && r2.hylites[h].locations == r.hylites[h].locations
         && r2.hylites[h].nameCache == r.hylites[h].nameCache
  }

  lemma RegistryGrowsTransitive(r1: Registry, r2: Registry, r3: Registry)
    requires RegistryGrows(r1, r2) && RegistryGrows(r2, r3)
    ensures RegistryGrows(r1, r3)
  {
    GrowsTransitive(r1.tree, r2.tree, r3.tree);
    forall h | 0 <= h < |r1.hylites|
      ensures IsPrefixOf(r1.hylites[h].attributes, r3.hylites[h].attributes)
      ensures IsPrefixOf(r1.hylites[h].texts, r3.hylites[h].texts)
    {
      PrefixTransitive(r1.hylites[h].attributes, r2.hylites[h].attributes, r3.hylites[h].attributes);
      PrefixTransitive(r1.hylites[h].texts, r2.hylites[h].texts, r3.hylites[h].texts);
    }
  }

  lemma PrefixHas<T>(a: seq<T>, b: seq<T>, x: T)
    requires IsPrefixOf(a, b) && x in a
    ensures x in b
  {
    var i :| 0 <= i < |a| && a[i] == x;
    assert b[i] == x;
  }

  // ---------------------------------------------------------------------------------------------
  // splitting the annotation

  /** `name, atts, text = string.split(/:/)`, with a missing section read as `""`. */
  function Sections(s: string): (r: (string, string, string))
    ensures ':' !in r.0 && ':' !in r.1 && ':' !in r.2
    ensures IsPrefix(r.0, s)
  {
    var f := SplitAll(s, ':');
    assert s == Join(f, ':');
    assert |f| > 1 ==> s == f[0] + [':'] + Join(f[1..], ':');
    (f[0], if |f| > 1 then f[1] else "", if |f| > 2 then f[2] else "")
  }

  /** Splitting at the first `:` gives the text before it and the split of the rest. */
  lemma SplitAllFirst(x: string, y: string, c: char)
    requires c !in x
    ensures SplitAll(x + [c] + y, c) == [x] + SplitAll(y, c)
  {
    var s := x + [c] + y;
    assert OccursAt(s, [c], |x|) by { assert s[|x|..|x| + 1] == [c]; }
    forall j | 0 <= j < |x| ensures !OccursAt(s, [c], j) {
      assert s[j] == x[j];
      if j + 1 <= |s| {
        assert s[j..j + 1][0] == s[j];
      }
    }
    match IndexOf(s, [c])
    case None =>
    case Some(i) =>
      assert s[..i] == x && s[i + 1..] == y;
  }

  /** Only the first three `:`-separated sections count: whatever follows a third `:` is
      ignored, and missing sections are empty. */
  lemma SplitAllWhole(x: string, c: char)
    requires c !in x
    ensures SplitAll(x, c) == [x]
  {
    match IndexOf(x, [c])
    case None =>
    case Some(_) =>
  }

  lemma SectionsUseThreeFields(name: string, atts: string, text: string, extra: string)
    requires ':' !in name && ':' !in atts && ':' !in text
    ensures Sections(name) == (name, "", "")
    ensures Sections(name + ":" + atts) == (name, atts, "")
    ensures Sections(name + ":" + atts + ":" + text) == (name, atts, text)
    ensures Sections(name + ":" + atts + ":" + text + ":" + extra) == (name, atts, text)
  {
    SplitAllWhole(name, ':');
    SectionsOfTwo(name, atts);
    SectionsOfThree(name, atts, text);
    SectionsOfMore(name, atts, text, extra);
  }

  lemma SectionsOfTwo(name: string, atts: string)
    requires ':' !in name && ':' !in atts
    ensures Sections(name + ":" + atts) == (name, atts, "")
  {
    SplitAllFirst(name, atts, ':');
    SplitAllWhole(atts, ':');
  }

  lemma SectionsOfThree(name: string, atts: string, text: string)
    requires ':' !in name && ':' !in atts && ':' !in text
    ensures Sections(name + ":" + atts + ":" + text) == (name, atts, text)
  {
    var y := atts + [':'] + text;
    assert name + ":" + atts + ":" + text == name + [':'] + y;
    SplitAllFirst(name, y, ':');
    SplitAllFirst(atts, text, ':');
    SplitAllWhole(text, ':');
    assert SplitAll(name + [':'] + y, ':') == [name, atts, text];
  }

  lemma SectionsOfMore(name: string, atts: string, text: string, extra: string)
    requires ':' !in name && ':' !in atts && ':' !in text
    ensures Sections(name + ":" + atts + ":" + text + ":" + extra) == (name, atts, text)
  {
    var z := text + [':'] + extra;
    var y := atts + [':'] + z;
    assert name + ":" + atts + ":" + text + ":" + extra == name + [':'] + y;
    SplitAllFirst(name, y, ':');
    SplitAllFirst(atts, z, ':');
    SplitAllFirst(text, extra, ':');
    assert SplitAll(name + [':'] + y, ':') == [name, atts, text] + SplitAll(extra, ':');
  }

  // ---------------------------------------------------------------------------------------------
  // the name section

  predicate IsNameChar(c: char)
  {
    c == '-' || IsWordChar(c)
  }

  predicate IsNotNewline(c: char)
  {
    c != '\n'
  }

  /** The end of the longest run of characters satisfying `p` that starts at `i`: a greedy
      regular-expression repetition. */
  function SkipWhile(s: string, i: nat, p: char -> bool): (j: nat)
    requires i <= |s|
    ensures i <= j <= |s|
    ensures forall k :: i <= k < j ==> p(s[k])
    ensures j < |s| ==> !p(s[j])
    decreases |s| - i
  {
    if i < |s| && p(s[i]) then SkipWhile(s, i + 1, p) else i
  }

  /** `name.sub` of the pattern `hylite`, `<space>*`, a captured `<word>*`, `.*` by `prefix` and
      the capture, for the two character classes `space` and `word`: the first `hylite`, the
      white space after it, the name characters after that and the rest of that line are
      replaced by `prefix` and the captured name characters; text before `hylite`, and anything
      from the next line feed on, stays. */
  function NameSubBy(name: string, prefix: string, space: char -> bool, word: char -> bool): string
  {
    match IndexOf(name, "hylite")
    case None => name
    case Some(p) =>
      var b := SkipWhile(name, p + 6, space);
      var c := SkipWhile(name, b, word);
      var d := SkipWhile(name, c, IsNotNewline);
      name[..p] + prefix + name[b..c] + name[d..]
  }

  /** For a name section `hylite`, white space, a run of name characters and the rest of the
      line, the substitution gives `prefix` followed by exactly that run. */
  lemma NameSubByCapture(ws: string, w: string, rest: string, prefix: string, space: char -> bool, word: char -> bool)
    requires forall i :: 0 <= i < |ws| ==> space(ws[i])
    requires forall i :: 0 <= i < |w| ==> word(w[i])
    requires w + rest != [] ==> !space((w + rest)[0])
    requires rest != [] ==> !word(rest[0])
    requires '\n' !in rest
    ensures NameSubBy("hylite" + ws + w + rest, prefix, space, word) == prefix + w
  {
    var name := "hylite" + ws + w + rest;
    assert name[..6] == "hylite";
    IndexOfAtStart(name, "hylite");
    CaptureRuns(ws, w, rest, space, word);
    assert name[6 + |ws|..6 + |ws| + |w|] == w;
    assert name[..0] == [] && name[|name|..] == [];
    assert [] + prefix + w + [] == prefix + w;
  }

  /** Where the three greedy repetitions of the name pattern stop. */
  lemma CaptureRuns(ws: string, w: string, rest: string, space: char -> bool, word: char -> bool)
    requires forall i :: 0 <= i < |ws| ==> space(ws[i])
    requires forall i :: 0 <= i < |w| ==> word(w[i])
    requires w + rest != [] ==> !space((w + rest)[0])
    requires rest != [] ==> !word(rest[0])
    requires '\n' !in rest
    ensures var name := "hylite" + ws + w + rest;
      && SkipWhile(name, 6, space) == 6 + |ws|
      && SkipWhile(name, 6 + |ws|, word) == 6 + |ws| + |w|
      && SkipWhile(name, 6 + |ws| + |w|, IsNotNewline) == |name|
  {
    var name := "hylite" + ws + w + rest;
    var b := 6 + |ws|;
    var c := b + |w|;
    assert forall k :: 6 <= k < b ==> name[k] == ws[k - 6];
    assert b < |name| ==> name[b] == (w + rest)[0];
    SkipWhileExact(name, 6, b, space);
    assert forall k :: b <= k < c ==> name[k] == w[k - b];
    assert c < |name| ==> name[c] == rest[0];
    SkipWhileExact(name, b, c, word);
    assert forall k :: c <= k < |name| ==> name[k] == rest[k - c];
    SkipWhileExact(name, c, |name|, IsNotNewline);
  }

  /** `name.sub` with the pattern `hylite\s*([-\w]*).*` of the later variant, where `\s`
      includes the vertical tab (as from Ruby 2.2) and `\w` is ASCII only. */
  function NameSub(name: string, prefix: string): string
  {
    NameSubBy(name, prefix, IsRegexSpace, IsNameChar)
  }

  /** `NameSubByCapture` for the later variant's classes. */
  lemma NameSubCapture(ws: string, w: string, rest: string, prefix: string)
    requires forall i :: 0 <= i < |ws| ==> IsRegexSpace(ws[i])
    requires forall i :: 0 <= i < |w| ==> IsNameChar(w[i])
    requires rest != [] ==> !IsNameChar(rest[0]) && (w == [] ==> !IsRegexSpace(rest[0]))
    requires '\n' !in rest
    ensures NameSub("hylite" + ws + w + rest, prefix) == prefix + w
  {
    assert w + rest != [] ==> (w + rest)[0] == if w != [] then w[0] else rest[0];
    NameSubByCapture(ws, w, rest, prefix, IsRegexSpace, IsNameChar);
  }

  lemma SkipWhileExact(s: string, i: nat, j: nat, p: char -> bool)
    requires i <= j <= |s|
    requires forall k :: i <= k < j ==> p(s[k])
    requires j < |s| ==> !p(s[j])
    ensures SkipWhile(s, i, p) == j
    decreases j - i
  {
    if i < j {
      SkipWhileExact(s, i + 1, j, p);
    }
  }

  /** The name attribute string the later variant looks up: `_Name-` and the raw name. */
  function NameAttribute(s: string): string
  {
    NameSub(Sections(s).0, "_Name-")
  }

  /** An annotation whose name section captures nothing is anonymous. */
  predicate IsAnonymousAnnotation(s: string)
  {
    NameAttribute(s) == "_Name-"
  }


  // ---------------------------------------------------------------------------------------------
  // the steps of parse_hylite_string

  /** `node.hyliteRefs << hylite`. */
  function AddRef(t: seq<AttribNode>, n: nat, h: nat): (r: seq<AttribNode>)
    requires n < |t|
    ensures |r| == |t| && r[n].hyliteRefs == t[n].hyliteRefs + [h]
    ensures forall i :: 0 <= i < |t| && i != n ==> r[i] == t[i]
    ensures forall i :: 0 <= i < |t| ==> r[i].name == t[i].name && r[i].upRef == t[i].upRef && r[i].downRefs == t[i].downRefs
  {
    t[n := t[n].(hyliteRefs := t[n].hyliteRefs + [h])]
  }

  lemma AddRefShape(t: seq<AttribNode>, n: nat, h: nat)
    requires WellFormed(t) && n < |t|
    ensures WellFormed(AddRef(t, n, h)) && Grows(t, AddRef(t, n, h))
    ensures Registered(t) ==> Registered(AddRef(t, n, h))
  {
    var r := AddRef(t, n, h);
    assert IsPrefixOf(t[n].hyliteRefs, r[n].hyliteRefs) by { assert r[n].hyliteRefs[..|t[n].hyliteRefs|] == t[n].hyliteRefs; }
  }

  /** `hylite.add_attribute(node)` followed by `node.hyliteRefs << hylite`: the cross-link made
      for the name node of a new hylite and for every attribute token. */
  function Link(reg: Registry, n: nat, h: nat): (r: Registry)
    requires WellFormed(reg.tree) && n < |reg.tree| && h < |reg.hylites|
    ensures WellFormed(r.tree) && |r.tree| == |reg.tree| && |r.hylites| == |reg.hylites|
  {
    AddRefShape(reg.tree, n, h);
    Registry(AddRef(reg.tree, n, h), reg.hylites[h := AddAttribute(reg.hylites[h], n)])
  }

  /** Find or create the hylite an annotation names: a fresh one for an anonymous annotation;
      otherwise the first hylite the name node (found, or made by `seekMake`) refers to, or a
      fresh one cross-linked with the name node. */
  function Resolve(reg: Registry, nas: string): (r: (Registry, nat))
    requires Valid(reg)
    ensures WellFormed(r.0.tree) && r.1 < |r.0.hylites|
  {
    if nas == "_Name-" then
      (reg.(hylites := reg.hylites + [NewHylite()]), |reg.hylites|)
    else
      var found := Seek(reg.tree, 0, nas);
      var made := if found.Some? then (reg.tree, found.value) else Make(reg.tree, 0, nas);
      var t1 := made.0;
      var n := made.1;
      if t1[n].hyliteRefs != [] then
        assert n < |reg.tree| && t1[n].hyliteRefs == reg.tree[n].hyliteRefs;
        assert NodeLinked(reg, n);
        (Registry(t1, reg.hylites), t1[n].hyliteRefs[0])
      else
        var h := |reg.hylites|;
        (Link(Registry(t1, reg.hylites + [NewHylite()]), n, h), h)
  }

  /** One attribute token: `seekMake` it from the root and cross-link it with hylite `h`. */
  function AttachOne(reg: Registry, h: nat, token: string): (r: Registry)
    requires WellFormed(reg.tree) && h < |reg.hylites|
    ensures WellFormed(r.tree) && |r.hylites| == |reg.hylites|
  {
    var (t1, a) := Make(reg.tree, 0, token);
    Link(Registry(t1, reg.hylites), a, h)
  }

  /** The loop over the attribute tokens, in order. */
  function AttachAll(reg: Registry, h: nat, tokens: seq<string>): (r: Registry)
    requires WellFormed(reg.tree) && h < |reg.hylites|
    ensures WellFormed(r.tree) && |r.hylites| == |reg.hylites|
    decreases |tokens|
  {
    if tokens == [] then reg else AttachAll(AttachOne(reg, h, tokens[0]), h, tokens[1..])
  }

  /** `AttachAll` from the `i`-th token on is `AttachOne` of that token, then the rest. */
  lemma AttachAllStep(reg: Registry, h: nat, tokens: seq<string>, i: nat)
    requires WellFormed(reg.tree) && h < |reg.hylites| && i < |tokens|
    ensures AttachAll(reg, h, tokens[i..]) == AttachAll(AttachOne(reg, h, tokens[i]), h, tokens[i + 1..])
  {
    assert tokens[i..][0] == tokens[i] && tokens[i..][1..] == tokens[i + 1..];
  }

  /** `hylite.texts << text if text.length > 0`. */
  function AddText(reg: Registry, h: nat, text: string): (r: Registry)
    requires h < |reg.hylites|
    ensures r.tree == reg.tree && |r.hylites| == |reg.hylites|
  {
    if |text| > 0 then reg.(hylites := reg.hylites[h := reg.hylites[h].(texts := reg.hylites[h].texts + [text])])
    else reg
  }

  /** `parse_hylite_string(string, set)`: the registry afterwards and the hylite the annotation
      was added to. Ruby's `split` yields no name section for a string of colons only (the code
      then fails on `nil`), hence the precondition. */
  function Parse(reg: Registry, s: string): (r: (Registry, nat))
    requires Valid(reg)
    requires exists i :: 0 <= i < |s| && s[i] != ':'
    ensures WellFormed(r.0.tree) && r.1 < |r.0.hylites|
  {
    var (name, atts, text) := Sections(s);
    var (reg1, h) := Resolve(reg, NameSub(name, "_Name-"));
    var reg2 := AttachAll(reg1, h, Segments(Strip(atts), ' '));
    (AddText(reg2, h, text), h)
  }

  // ---------------------------------------------------------------------------------------------
  // what parsing keeps and what it changes

  /** `seekMake` on the tree of a valid registry keeps it valid: new nodes refer to no hylite. */
  lemma MakeKeepsValid(reg: Registry, path: string)
    requires Valid(reg)
    ensures Valid(Registry(Make(reg.tree, 0, path).0, reg.hylites))
    ensures RegistryGrows(reg, Registry(Make(reg.tree, 0, path).0, reg.hylites))
  {
    var t1 := Make(reg.tree, 0, path).0;
    MakeKeepsRegistered(reg.tree, 0, Segments(path, '-'));
    var r := Registry(t1, reg.hylites);
    forall n | 0 <= n < |t1| ensures NodeLinked(r, n) {
      if n < |reg.tree| {
        assert NodeLinked(reg, n);
      }
    }
    forall h | 0 <= h < |reg.hylites| ensures HyliteLinked(r, h) {
      assert HyliteLinked(reg, h);
    }
    ExtendsGrows(reg.tree, t1);
    forall h | 0 <= h < |reg.hylites|
      ensures IsPrefixOf(reg.hylites[h].attributes, r.hylites[h].attributes)
      ensures IsPrefixOf(reg.hylites[h].texts, r.hylites[h].texts)
    {
      assert reg.hylites[h].attributes[..|reg.hylites[h].attributes|] == reg.hylites[h].attributes;
      assert reg.hylites[h].texts[..|reg.hylites[h].texts|] == reg.hylites[h].texts;
    }
  }

  /** Appending a fresh hylite keeps a registry valid. */
  lemma AppendKeepsValid(reg: Registry)
    requires Valid(reg)
    ensures Valid(reg.(hylites := reg.hylites + [NewHylite()]))
    ensures RegistryGrows(reg, reg.(hylites := reg.hylites + [NewHylite()]))
  {
    var r := reg.(hylites := reg.hylites + [NewHylite()]);
    forall n | 0 <= n < |r.tree| ensures NodeLinked(r, n) {
      assert NodeLinked(reg, n);
    }
    forall h | 0 <= h < |r.hylites| ensures HyliteLinked(r, h) {
      if h < |reg.hylites| {
        assert HyliteLinked(reg, h);
      }
    }
    forall h | 0 <= h < |reg.hylites|
      ensures IsPrefixOf(reg.hylites[h].attributes, r.hylites[h].attributes)
      ensures IsPrefixOf(reg.hylites[h].texts, r.hylites[h].texts)
    {
      assert reg.hylites[h].attributes[..|reg.hylites[h].attributes|] == reg.hylites[h].attributes;
      assert reg.hylites[h].texts[..|reg.hylites[h].texts|] == reg.hylites[h].texts;
    }
  }

  /** Cross-linking node `n` and hylite `h` keeps a registry valid, adds `n` to the attributes
      of `h` and `h` to the references of `n`, and touches nothing else. */
  lemma LinkKeepsValid(reg: Registry, n: nat, h: nat)
    requires Valid(reg) && n < |reg.tree| && h < |reg.hylites|
    ensures var r := Link(reg, n, h);
      && Valid(r)
      && RegistryGrows(reg, r)
      && (forall g :: 0 <= g < |reg.hylites| && g != h ==> r.hylites[g] == reg.hylites[g])
      && r.hylites[h].texts == reg.hylites[h].texts
      && n in r.hylites[h].attributes && h in r.tree[n].hyliteRefs
  {
    AddRefShape(reg.tree, n, h);
    LinkRefs(reg, n, h);
    LinkAttrs(reg, n, h);
    LinkGrows(reg, n, h);
  }

  lemma LinkRefs(reg: Registry, n: nat, h: nat)
    requires Valid(reg) && n < |reg.tree| && h < |reg.hylites|
    ensures RefsOk(Link(reg, n, h))
  {
    var r := Link(reg, n, h);
    forall m | 0 <= m < |r.tree| ensures NodeLinked(r, m) {
      assert NodeLinked(reg, m);
      forall k | 0 <= k < |r.tree[m].hyliteRefs|
        ensures r.tree[m].hyliteRefs[k] < |r.hylites| && m in r.hylites[r.tree[m].hyliteRefs[k]].attributes
      {
        if m != n || k < |reg.tree[n].hyliteRefs| {
          var g := reg.tree[m].hyliteRefs[k];
          assert r.tree[m].hyliteRefs[k] == g;
          assert m in reg.hylites[g].attributes;
        }
      }
    }
  }

  lemma LinkAttrs(reg: Registry, n: nat, h: nat)
    requires Valid(reg) && n < |reg.tree| && h < |reg.hylites|
    ensures AttrsOk(Link(reg, n, h))
  {
    var r := Link(reg, n, h);
    forall g | 0 <= g < |r.hylites| ensures HyliteLinked(r, g) {
      assert HyliteLinked(reg, g);
      forall i | 0 <= i < |r.hylites[g].attributes|
        ensures r.hylites[g].attributes[i] < |r.tree| && g in r.tree[r.hylites[g].attributes[i]].hyliteRefs
      {
        var x := r.hylites[g].attributes[i];
        if !(g == h && x == n) {
          LinkAttrKept(reg, n, h, g, x);
        }
      }
    }
  }

  /** A node a hylite cited before still refers back to it after the link. */
  lemma LinkAttrKept(reg: Registry, n: nat, h: nat, g: nat, x: nat)
    requires Valid(reg) && n < |reg.tree| && h < |reg.hylites| && g < |reg.hylites|
    requires x in reg.hylites[g].attributes
    ensures x < |reg.tree| && g in AddRef(reg.tree, n, h)[x].hyliteRefs
  {
    assert HyliteLinked(reg, g);
    var j :| 0 <= j < |reg.hylites[g].attributes| && reg.hylites[g].attributes[j] == x;
    assert g in reg.tree[x].hyliteRefs;
    if x == n {
      assert AddRef(reg.tree, n, h)[x].hyliteRefs == reg.tree[x].hyliteRefs + [h];
    }
  }

  lemma LinkGrows(reg: Registry, n: nat, h: nat)
    requires Valid(reg) && n < |reg.tree| && h < |reg.hylites|
    ensures var r := Link(reg, n, h);
      && RegistryGrows(reg, r)
      && (forall g :: 0 <= g < |reg.hylites| && g != h ==> r.hylites[g] == reg.hylites[g])
      && r.hylites[h].texts == reg.hylites[h].texts
      && n in r.hylites[h].attributes && h in r.tree[n].hyliteRefs
  {
    var r := Link(reg, n, h);
    AddRefShape(reg.tree, n, h);
    forall g | 0 <= g < |reg.hylites|
      ensures IsPrefixOf(reg.hylites[g].attributes, r.hylites[g].attributes)
      ensures IsPrefixOf(reg.hylites[g].texts, r.hylites[g].texts)
    {
      assert reg.hylites[g].texts[..|reg.hylites[g].texts|] == reg.hylites[g].texts;
      assert reg.hylites[g].attributes[..|reg.hylites[g].attributes|] == reg.hylites[g].attributes;
    }
  }

  lemma RegistryGrowsReflexive(reg: Registry)
    ensures RegistryGrows(reg, reg)
  {
    forall h | 0 <= h < |reg.hylites|
      ensures IsPrefixOf(reg.hylites[h].attributes, reg.hylites[h].attributes)
      ensures IsPrefixOf(reg.hylites[h].texts, reg.hylites[h].texts)
    {
      assert reg.hylites[h].attributes[..|reg.hylites[h].attributes|] == reg.hylites[h].attributes;
      assert reg.hylites[h].texts[..|reg.hylites[h].texts|] == reg.hylites[h].texts;
    }
    forall i | 0 <= i < |reg.tree| ensures IsPrefixOf(reg.tree[i].hyliteRefs, reg.tree[i].hyliteRefs) {
      assert reg.tree[i].hyliteRefs[..|reg.tree[i].hyliteRefs|] == reg.tree[i].hyliteRefs;
    }
  }

  /** The name node of `nas` exists and the first hylite it refers to is `h`. */
  ghost predicate NameLeadsTo(r: Registry, nas: string, h: nat)
    requires WellFormed(r.tree)
  {
    var m := Seek(r.tree, 0, nas);
    m.Some? && r.tree[m.value].hyliteRefs != [] && r.tree[m.value].hyliteRefs[0] == h
  }

  /** A name node keeps leading to its hylite as the registry grows. */
  lemma NameLeadsToKept(r1: Registry, r2: Registry, nas: string, h: nat)
    requires WellFormed(r1.tree) && WellFormed(r2.tree) && Grows(r1.tree, r2.tree)
    requires NameLeadsTo(r1, nas, h)
    ensures NameLeadsTo(r2, nas, h)
  {
    var m := Seek(r1.tree, 0, nas).value;
    SeekKept(r1.tree, r2.tree, 0, Segments(nas, '-'));
    assert IsPrefixOf(r1.tree[m].hyliteRefs, r2.tree[m].hyliteRefs);
  }

  /** The hylite an annotation resolves to: an anonymous annotation always gets a new, empty
      hylite; a named one gets the first hylite its name node refers to, which is a new, empty
      one exactly when the name node referred to none before. No existing hylite changes. */
  lemma ResolveEffect(reg: Registry, nas: string)
    requires Valid(reg)
    ensures var (r, h) := Resolve(reg, nas);
      && Valid(r) && RegistryGrows(reg, r)
      && h <= |reg.hylites| && |r.hylites| == |reg.hylites| + (if h == |reg.hylites| then 1 else 0)
      && (forall g :: 0 <= g < |reg.hylites| ==> r.hylites[g] == reg.hylites[g])
      && (h == |reg.hylites| ==> r.hylites[h].texts == [] && r.hylites[h].locations == [] && r.hylites[h].nameCache == None)
      && (nas == "_Name-" ==> h == |reg.hylites|)
      && (nas != "_Name-" ==> NameLeadsTo(r, nas, h))
      && (h == |reg.hylites| ==> r.hylites[h].attributes == if nas == "_Name-" then [] else [Seek(r.tree, 0, nas).value])
  {
    var (r, h) := Resolve(reg, nas);
    if nas == "_Name-" {
      AppendKeepsValid(reg);
    } else {
      var found := Seek(reg.tree, 0, nas);
      var made := if found.Some? then (reg.tree, found.value) else Make(reg.tree, 0, nas);
      var t1 := made.0;
      var n := made.1;
      var reg1 := Registry(t1, reg.hylites);
      if found.Some? {
        assert reg1 == reg;
        RegistryGrowsReflexive(reg);
      } else {
        MakeKeepsValid(reg, nas);
      }
      assert Seek(t1, 0, nas) == Some(n);
      if t1[n].hyliteRefs != [] {
        assert NodeLinked(reg1, n);
      } else {
        var reg2 := Registry(t1, reg.hylites + [NewHylite()]);
        AppendKeepsValid(reg1);
        RegistryGrowsTransitive(reg, reg1, reg2);
        LinkKeepsValid(reg2, n, h);
        RegistryGrowsTransitive(reg, reg2, r);
        AddRefShape(t1, n, h);
        SeekKept(t1, r.tree, 0, Segments(nas, '-'));
      }
    }
  }

  /** Citing one attribute token keeps the registry valid; hylite `h` then cites exactly what it
      cited before and the node the token names, and no other hylite and no text changes. */
  lemma AttachOneEffect(reg: Registry, h: nat, token: string)
    requires Valid(reg) && h < |reg.hylites|
    ensures var r := AttachOne(reg, h, token);
      && Valid(r) && RegistryGrows(reg, r)
      && (forall g :: 0 <= g < |reg.hylites| && g != h ==> r.hylites[g] == reg.hylites[g])
      && r.hylites[h].texts == reg.hylites[h].texts
      && Seek(r.tree, 0, token).Some?
      && (forall x :: x in r.hylites[h].attributes <==> x in reg.hylites[h].attributes || Seek(r.tree, 0, token) == Some(x))
  {
    var (t1, a) := Make(reg.tree, 0, token);
    var reg1 := Registry(t1, reg.hylites);
    MakeKeepsValid(reg, token);
    LinkKeepsValid(reg1, a, h);
    var r := Link(reg1, a, h);
    RegistryGrowsTransitive(reg, reg1, r);
    AddRefShape(t1, a, h);
    SeekKept(t1, r.tree, 0, Segments(token, '-'));
  }

  /** The attribute tokens `tokens` all name nodes that hylite `h` cites. */
  ghost predicate TokensCited(r: Registry, h: nat, tokens: seq<string>)
    requires WellFormed(r.tree) && h < |r.hylites|
  {
    forall k :: 0 <= k < |tokens| ==>
      Seek(r.tree, 0, tokens[k]).Some? && Seek(r.tree, 0, tokens[k]).value in r.hylites[h].attributes
  }

  /** The loop over the tokens keeps the registry valid and changes no other hylite and no
      text. */
  lemma {:induction false} AttachAllKeepsValid(reg: Registry, h: nat, tokens: seq<string>)
    requires Valid(reg) && h < |reg.hylites|
    ensures var r := AttachAll(reg, h, tokens);
      && Valid(r) && RegistryGrows(reg, r)
      && (forall g :: 0 <= g < |reg.hylites| && g != h ==> r.hylites[g] == reg.hylites[g])
      && r.hylites[h].texts == reg.hylites[h].texts
    decreases |tokens|
  {
    if tokens == [] {
      RegistryGrowsReflexive(reg);
    } else {
      var r1 := AttachOne(reg, h, tokens[0]);
      AttachOneEffect(reg, h, tokens[0]);
      AttachAllKeepsValid(r1, h, tokens[1..]);
      RegistryGrowsTransitive(reg, r1, AttachAll(r1, h, tokens[1..]));
    }
  }

  /** After the loop over the tokens hylite `h` cites exactly what it cited before and the node
      of every token. */
  lemma {:induction false} AttachAllCites(reg: Registry, h: nat, tokens: seq<string>)
    requires Valid(reg) && h < |reg.hylites|
    ensures var r := AttachAll(reg, h, tokens);
      && TokensCited(r, h, tokens)
      && (forall x :: x in r.hylites[h].attributes <==>
            x in reg.hylites[h].attributes || exists k :: 0 <= k < |tokens| && Seek(r.tree, 0, tokens[k]) == Some(x))
    decreases |tokens|
  {
    if tokens != [] {
      var r1 := AttachOne(reg, h, tokens[0]);
      AttachOneEffect(reg, h, tokens[0]);
      AttachAllKeepsValid(r1, h, tokens[1..]);
      AttachAllCites(r1, h, tokens[1..]);
      var r := AttachAll(r1, h, tokens[1..]);
      SeekKept(r1.tree, r.tree, 0, Segments(tokens[0], '-'));
      CitedStep(reg, r1, r, h, tokens);
    }
  }

  /** The induction step of `AttachAllCites`, apart from the registries it relates. */
  lemma CitedStep(reg: Registry, r1: Registry, r: Registry, h: nat, tokens: seq<string>)
    requires WellFormed(r1.tree) && WellFormed(r.tree) && tokens != []
    requires h < |reg.hylites| && h < |r1.hylites| && h < |r.hylites|
    requires IsPrefixOf(r1.hylites[h].attributes, r.hylites[h].attributes)
    requires Seek(r1.tree, 0, tokens[0]).Some? && Seek(r.tree, 0, tokens[0]) == Seek(r1.tree, 0, tokens[0])
    requires forall x :: x in r1.hylites[h].attributes <==> x in reg.hylites[h].attributes || Seek(r1.tree, 0, tokens[0]) == Some(x)
    requires TokensCited(r, h, tokens[1..])
    requires forall x :: x in r.hylites[h].attributes <==>
               x in r1.hylites[h].attributes || exists k :: 0 <= k < |tokens[1..]| && Seek(r.tree, 0, tokens[1..][k]) == Some(x)
    ensures TokensCited(r, h, tokens)
    ensures forall x :: x in r.hylites[h].attributes <==>
              x in reg.hylites[h].attributes || exists k :: 0 <= k < |tokens| && Seek(r.tree, 0, tokens[k]) == Some(x)
  {
    var a := Seek(r1.tree, 0, tokens[0]).value;
    PrefixHas(r1.hylites[h].attributes, r.hylites[h].attributes, a);
    forall k | 0 <= k < |tokens|
      ensures Seek(r.tree, 0, tokens[k]).Some? && Seek(r.tree, 0, tokens[k]).value in r.hylites[h].attributes
    {
      if k > 0 {
        assert tokens[k] == tokens[1..][k - 1];
      }
    }
    forall x | x in r.hylites[h].attributes
      ensures x in reg.hylites[h].attributes || exists k :: 0 <= k < |tokens| && Seek(r.tree, 0, tokens[k]) == Some(x)
    {
      if x !in r1.hylites[h].attributes {
        var k :| 0 <= k < |tokens[1..]| && Seek(r.tree, 0, tokens[1..][k]) == Some(x);
        assert tokens[1..][k] == tokens[k + 1];
      } else if x !in reg.hylites[h].attributes {
        assert Seek(r.tree, 0, tokens[0]) == Some(x);
      }
    }
    forall x | x in reg.hylites[h].attributes ensures x in r.hylites[h].attributes {
      PrefixHas(r1.hylites[h].attributes, r.hylites[h].attributes, x);
    }
    forall x | (exists k :: 0 <= k < |tokens| && Seek(r.tree, 0, tokens[k]) == Some(x))
      ensures x in r.hylites[h].attributes
    {
      var k :| 0 <= k < |tokens| && Seek(r.tree, 0, tokens[k]) == Some(x);
      assert Seek(r.tree, 0, tokens[k]).value in r.hylites[h].attributes;
    }
  }

  /** Keeping the text section: appended to the hylite's texts when it is not empty. */
  lemma AddTextEffect(reg: Registry, h: nat, text: string)
    requires Valid(reg) && h < |reg.hylites|
    ensures var r := AddText(reg, h, text);
      && Valid(r) && RegistryGrows(reg, r)
      && (forall g :: 0 <= g < |reg.hylites| && g != h ==> r.hylites[g] == reg.hylites[g])
      && r.hylites[h].attributes == reg.hylites[h].attributes
      && r.hylites[h].texts == reg.hylites[h].texts + (if |text| > 0 then [text] else [])
  {
    if |text| > 0 {
      AddTextKeepsLinks(reg, h, text);
      AddTextGrows(reg, h, text);
    } else {
      RegistryGrowsReflexive(reg);
    }
  }

  lemma AddTextKeepsLinks(reg: Registry, h: nat, text: string)
    requires Valid(reg) && h < |reg.hylites|
    ensures Valid(AddText(reg, h, text))
  {
    var r := AddText(reg, h, text);
    forall g | 0 <= g < |r.hylites| ensures r.hylites[g].attributes == reg.hylites[g].attributes {
    }
    forall n | 0 <= n < |r.tree| ensures NodeLinked(r, n) {
      assert NodeLinked(reg, n);
    }
    forall g | 0 <= g < |r.hylites| ensures HyliteLinked(r, g) {
      assert HyliteLinked(reg, g);
    }
  }

  lemma AddTextGrows(reg: Registry, h: nat, text: string)
    requires WellFormed(reg.tree) && h < |reg.hylites|
    ensures RegistryGrows(reg, AddText(reg, h, text))
  {
    var r := AddText(reg, h, text);
    RegistryGrowsReflexive(reg);
    forall g | 0 <= g < |reg.hylites|
      ensures IsPrefixOf(reg.hylites[g].texts, r.hylites[g].texts)
    {
      assert r.hylites[g].texts[..|reg.hylites[g].texts|] == reg.hylites[g].texts;
    }
  }

  /** `parse_hylite_string` keeps the registry valid; it either adds one hylite (the one it
      answers) or none, changes no other hylite, and appends the text section, when not empty, to
      the texts of the hylite it answers. Locations and the cached name are not touched. */
  lemma ParseKeepsValid(reg: Registry, s: string)
    requires Valid(reg)
    requires exists i :: 0 <= i < |s| && s[i] != ':'
    ensures var (r, h) := Parse(reg, s);
      && Valid(r) && RegistryGrows(reg, r)
      && h <= |reg.hylites| && |r.hylites| == |reg.hylites| + (if h == |reg.hylites| then 1 else 0)
      && (forall g :: 0 <= g < |reg.hylites| && g != h ==> r.hylites[g] == reg.hylites[g])
      && r.hylites[h].texts == (if h < |reg.hylites| then reg.hylites[h].texts else [])
                               + (if |Sections(s).2| > 0 then [Sections(s).2] else [])
      && r.hylites[h].locations == (if h < |reg.hylites| then reg.hylites[h].locations else [])
      && r.hylites[h].nameCache == (if h < |reg.hylites| then reg.hylites[h].nameCache else None)
  {
    var (name, atts, text) := Sections(s);
    var (reg1, h) := Resolve(reg, NameSub(name, "_Name-"));
    ResolveEffect(reg, NameSub(name, "_Name-"));
    var reg2 := AttachAll(reg1, h, Segments(Strip(atts), ' '));
    AttachAllKeepsValid(reg1, h, Segments(Strip(atts), ' '));
    RegistryGrowsTransitive(reg, reg1, reg2);
    AddTextEffect(reg2, h, text);
    RegistryGrowsTransitive(reg, reg2, AddText(reg2, h, text));
  }

  /** The hylite `parse_hylite_string` answers cites exactly: what it cited before (when it
      existed), its name node (when it is new and named), and the node of every attribute token. */
  lemma ParseCites(reg: Registry, s: string)
    requires Valid(reg)
    requires exists i :: 0 <= i < |s| && s[i] != ':'
    ensures var (r, h) := Parse(reg, s);
      var tokens := Segments(Strip(Sections(s).1), ' ');
      && TokensCited(r, h, tokens)
      && forall x :: x in r.hylites[h].attributes <==>
           || (h < |reg.hylites| && x in reg.hylites[h].attributes)
           || (h == |reg.hylites| && !IsAnonymousAnnotation(s) && Seek(r.tree, 0, NameAttribute(s)) == Some(x))
           || exists k :: 0 <= k < |tokens| && Seek(r.tree, 0, tokens[k]) == Some(x)
  {
    var (name, atts, text) := Sections(s);
    var nas := NameSub(name, "_Name-");
    var (reg1, h) := Resolve(reg, nas);
    ResolveEffect(reg, nas);
    var tokens := Segments(Strip(atts), ' ');
    var reg2 := AttachAll(reg1, h, tokens);
    AttachAllKeepsValid(reg1, h, tokens);
    AttachAllCites(reg1, h, tokens);
    AddTextEffect(reg2, h, text);
    if nas != "_Name-" {
      SeekKept(reg1.tree, reg2.tree, 0, Segments(nas, '-'));
    }
  }

  /** An anonymous annotation always makes a new hylite; a named one answers the hylite its name
      node refers to first, so the name node is found afterwards and leads back to it. */
  lemma ParseName(reg: Registry, s: string)
    requires Valid(reg)
    requires exists i :: 0 <= i < |s| && s[i] != ':'
    ensures var (r, h) := Parse(reg, s);
      && (IsAnonymousAnnotation(s) ==> h == |reg.hylites|)
      && (!IsAnonymousAnnotation(s) ==> NameLeadsTo(r, NameAttribute(s), h))
  {
    var (name, atts, text) := Sections(s);
    var nas := NameSub(name, "_Name-");
    var (reg1, h) := Resolve(reg, nas);
    ResolveEffect(reg, nas);
    var tokens := Segments(Strip(atts), ' ');
    var reg2 := AttachAll(reg1, h, tokens);
    AttachAllKeepsValid(reg1, h, tokens);
    AddTextEffect(reg2, h, text);
    if nas != "_Name-" {
      NameLeadsToKept(reg1, reg2, nas, h);
    }
  }

  /** Two annotations with the same name denote the same hylite: the second adds no hylite and
      answers the hylite the first one answered. */
  lemma ParseMergesByName(reg: Registry, s1: string, s2: string)
    requires Valid(reg)
    requires exists i :: 0 <= i < |s1| && s1[i] != ':'
    requires exists i :: 0 <= i < |s2| && s2[i] != ':'
    requires !IsAnonymousAnnotation(s1) && NameAttribute(s1) == NameAttribute(s2)
    ensures Valid(Parse(reg, s1).0)
    ensures var (r1, h1) := Parse(reg, s1);
      var (r2, h2) := Parse(r1, s2);
      h2 == h1 && |r2.hylites| == |r1.hylites|
  {
    var (r1, h1) := Parse(reg, s1);
    ParseKeepsValid(reg, s1);
    ParseName(reg, s1);
    var (name, atts, text) := Sections(s2);
    var nas := NameSub(name, "_Name-");
    assert nas == NameAttribute(s1);
    ResolveEffect(r1, nas);
    var (q, h) := Resolve(r1, nas);
    assert h == h1;
    AttachAllKeepsValid(q, h, Segments(Strip(atts), ' '));
  }

  /** `hy.locations << loc` on hylite `h`. */
  function AddLocation(reg: Registry, h: nat, loc: Location): (r: Registry)
    requires h < |reg.hylites|
    ensures r.tree == reg.tree && |r.hylites| == |reg.hylites|
    ensures r.hylites[h].locations == reg.hylites[h].locations + [loc]
    ensures r.hylites[h] == reg.hylites[h].(locations := r.hylites[h].locations)
    ensures forall g :: 0 <= g < |r.hylites| && g != h ==> r.hylites[g] == reg.hylites[g]
  {
    reg.(hylites := reg.hylites[h := reg.hylites[h].(locations := reg.hylites[h].locations + [loc])])
  }

  /** A location changes no link between hylites and nodes. */
  lemma AddLocationKeepsValid(reg: Registry, h: nat, loc: Location)
    requires Valid(reg) && h < |reg.hylites|
    ensures Valid(AddLocation(reg, h, loc))
  {
    var r := AddLocation(reg, h, loc);
    assert forall g :: 0 <= g < |r.hylites| ==> r.hylites[g].attributes == reg.hylites[g].attributes;
    forall n | 0 <= n < |r.tree| ensures NodeLinked(r, n) {
      assert NodeLinked(reg, n);
    }
    forall g | 0 <= g < |r.hylites| ensures HyliteLinked(r, g) {
      assert HyliteLinked(reg, g);
    }
  }
}

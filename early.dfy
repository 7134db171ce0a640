/** The earlier variant of the hylite library, lib/rb/hylib.rb. Its attribute tree is that of
    module Trie, and its `seek`, `level`, `to_s` and `to_s_fancy` are Trie's; what differs is a
    `seekMake` that puts a new node in place of the node of a path's last segment, a plainer
    `parseHyliteString` (name prefix `name-`, root `root`, no deduplication), `each_name`, and
    the first forms of `determine_type` and `line_hylite`. */
module EarlyHylib {
  import opened Strings
  import opened Trie
  import opened Parsing
  import opened LineHylites
  import Lexer
  import Entity

  /** An early `Hylite`: the nodes it cites, in the order of citation and with repeats, and its
      texts. */
  datatype OldHylite = OldHylite(attributes: seq<nat>, texts: seq<string>)

  /** An early `HyliteSet`: the attribute tree, whose root is called `root`, and the hylites in
      the order they were created. */
  datatype OldRegistry = OldRegistry(tree: seq<AttribNode>, hylites: seq<OldHylite>)

  /** References between the tree and the hylites stay in range. */
  ghost predicate OldValid(r: OldRegistry)
  {
    && WellFormed(r.tree)
    && (forall n, k :: 0 <= n < |r.tree| && 0 <= k < |r.tree[n].hyliteRefs| ==> r.tree[n].hyliteRefs[k] < |r.hylites|)
    && (forall h, k :: 0 <= h < |r.hylites| && 0 <= k < |r.hylites[h].attributes| ==> r.hylites[h].attributes[k] < |r.tree|)
  }

  /** `HyliteSet.new`. */
  function OldEmpty(): (r: OldRegistry)
    ensures OldValid(r) && |r.tree| == 1 && r.tree[0].name == "root" && r.hylites == []
  {
    OldRegistry([NewNode("root", None)], [])
  }

  // ---------------------------------------------------------------------------------------------
  // seekMake as written

  /** `t2` is `t` with nodes appended and child-map entries added or replaced: names, parents and
      hylite references of the old nodes are untouched. */
  ghost predicate Keeps(t: seq<AttribNode>, t2: seq<AttribNode>)
  {
    && |t| <= |t2|
    && forall i :: 0 <= i < |t| ==>
         t2[i].name == t[i].name && t2[i].upRef == t[i].upRef && t2[i].hyliteRefs == t[i].hyliteRefs
  }

  /** The path ends with the separator, so that `chomp!('-')` of its last piece removes one. */
  predicate EndsWithDash(path: string)
  {
    path != [] && path[|path| - 1] == '-'
  }

  /** `seekMake` of lib/rb/hylib.rb over already-split segments. `chomp!` answers nil for a piece
      it leaves unchanged, and that is the last piece of a path without a trailing `-`: its
      lookup always misses, and a new node takes the place of any existing child of that name.
      Every other segment descends into an existing child or adds a missing one. */
  function OldMakeSegments(t: seq<AttribNode>, n: nat, segs: seq<string>, trailing: bool): (r: (seq<AttribNode>, nat))
    requires WellFormed(t) && n < |t|
    ensures WellFormed(r.0) && r.1 < |r.0|
    decreases segs
  {
    if segs == [] then (t, n)
    else if (|segs| > 1 || trailing) && segs[0] in t[n].downRefs then
      OldMakeSegments(t, t[n].downRefs[segs[0]], segs[1..], trailing)
    else
      AddChildWellFormed(t, n, segs[0]);
      OldMakeSegments(AddChild(t, n, segs[0]), |t|, segs[1..], trailing)
  }

  /** The early `seekMake` keeps the old nodes' names, parents and hylite references and the
      nodes before `n` altogether, gives its new nodes no hylite, and `seek` then finds its
      answer. */
  lemma {:induction false} OldMakeSegmentsEffect(t: seq<AttribNode>, n: nat, segs: seq<string>, trailing: bool)
    requires WellFormed(t) && n < |t|
    ensures var r := OldMakeSegments(t, n, segs, trailing);
      && WellFormed(r.0) && Keeps(t, r.0)
      && (forall i :: |t| <= i < |r.0| ==> r.0[i].hyliteRefs == [])
      && (forall i :: 0 <= i < n ==> r.0[i] == t[i])
      && SeekSegments(r.0, n, segs) == Some(r.1)
    decreases segs
  {
    if segs != [] {
      if (|segs| > 1 || trailing) && segs[0] in t[n].downRefs {
        var c := t[n].downRefs[segs[0]];
        ChildAfter(t, n, segs[0]);
        OldMakeSegmentsEffect(t, c, segs[1..], trailing);
        assert OldMakeSegments(t, c, segs[1..], trailing).0[n] == t[n];
      } else {
        AddChildWellFormed(t, n, segs[0]);
        var t1 := AddChild(t, n, segs[0]);
        OldMakeSegmentsEffect(t1, |t|, segs[1..], trailing);
        assert OldMakeSegments(t1, |t|, segs[1..], trailing).0[n] == t1[n];
      }
    }
  }

  /** `node.seekMake(path)` of lib/rb/hylib.rb. */
  function OldMake(t: seq<AttribNode>, start: nat, path: string): (r: (seq<AttribNode>, nat))
    requires WellFormed(t) && start < |t|
    ensures WellFormed(r.0) && Keeps(t, r.0) && r.1 < |r.0|
    ensures forall i :: |t| <= i < |r.0| ==> r.0[i].hyliteRefs == []
    ensures Seek(r.0, start, path) == Some(r.1)
  {
    OldMakeSegmentsEffect(t, start, Segments(path, '-'), EndsWithDash(path));
    OldMakeSegments(t, start, Segments(path, '-'), EndsWithDash(path))
  }

  /** The loop of the early `seekMake` over the pieces `segs` from `start` in `t0` has reached
      tree `t`, node `n` and piece `i`: what is left to do ends where the whole walk ends. */
  ghost predicate OldProgress(t0: seq<AttribNode>, start: nat, segs: seq<string>, trailing: bool,
                              t: seq<AttribNode>, n: nat, i: nat)
  {
    && WellFormed(t0) && start < |t0| && WellFormed(t) && n < |t| && i <= |segs|
    && OldMakeSegments(t, n, segs[i..], trailing) == OldMakeSegments(t0, start, segs, trailing)
  }

  /** The loop starts and ends where `OldMakeSegments` does. */
  lemma OldProgressBounds(t0: seq<AttribNode>, start: nat, segs: seq<string>, trailing: bool, t: seq<AttribNode>, n: nat)
    requires WellFormed(t0) && start < |t0|
    ensures OldProgress(t0, start, segs, trailing, t0, start, 0)
    ensures OldProgress(t0, start, segs, trailing, t, n, |segs|) ==> OldMakeSegments(t0, start, segs, trailing) == (t, n)
  {
    assert segs[0..] == segs;
    assert segs[|segs|..] == [];
  }

  /** One piece of the loop: descend into the existing child unless the piece is a last one
      without `-` or is missing, and add a node otherwise. */
  lemma OldProgressStep(t0: seq<AttribNode>, start: nat, segs: seq<string>, trailing: bool,
                        t: seq<AttribNode>, n: nat, i: nat, t2: seq<AttribNode>, n2: nat)
    requires OldProgress(t0, start, segs, trailing, t, n, i) && i < |segs|
    requires if (i + 1 < |segs| || trailing) && segs[i] in t[n].downRefs
      then t2 == t && n2 == t[n].downRefs[segs[i]]
      else t2 == AddChild(t, n, segs[i]) && n2 == |t|
    ensures OldProgress(t0, start, segs, trailing, t2, n2, i + 1)
  {
    assert segs[i..][0] == segs[i] && segs[i..][1..] == segs[i + 1..];
    AddChildWellFormed(t, n, segs[i]);
  }

  /** `node.seekMake(path)` of lib/rb/hylib.rb with its loop over the pieces of the path: each
      piece but a last one without `-` descends into an existing child, and a missing or last
      piece gets a new node. */
  method OldMakeWalk(t0: seq<AttribNode>, start: nat, path: string) returns (t: seq<AttribNode>, n: nat)
    requires WellFormed(t0) && start < |t0|
    ensures (t, n) == OldMake(t0, start, path)
  {
    var segs := Segments(path, '-');
    var trailing := EndsWithDash(path);
    t, n := t0, start;
    var i := 0;
    OldProgressBounds(t0, start, segs, trailing, t, n);
    while i < |segs|
      invariant OldProgress(t0, start, segs, trailing, t, n, i)
    {
      ghost var (t1, n1) := (t, n);
      var part := segs[i];
      if (i + 1 < |segs| || trailing) && part in t[n].downRefs {
        n := t[n].downRefs[part];
      } else {
        t := AddChild(t, n, part);
        n := |t| - 1;
      }
      OldProgressStep(t0, start, segs, trailing, t1, n1, i, t, n);
      i := i + 1;
    }
    OldProgressBounds(t0, start, segs, trailing, t, n);
  }

  /** With every segment chomped, the early `seekMake` is the later one. */
  lemma {:induction false} OldMakeTrailing(t: seq<AttribNode>, n: nat, segs: seq<string>)
    requires WellFormed(t) && n < |t|
    ensures OldMakeSegments(t, n, segs, true) == MakeSegments(t, n, segs)
    decreases segs
  {
    if segs != [] {
      if segs[0] in t[n].downRefs {
        OldMakeTrailing(t, t[n].downRefs[segs[0]], segs[1..]);
      } else {
        AddChildWellFormed(t, n, segs[0]);
        OldMakeTrailing(AddChild(t, n, segs[0]), |t|, segs[1..]);
      }
    }
  }

  /** A node `seek` reaches lies below its start, so has a larger index. */
  lemma {:induction false} SeekBelow(t: seq<AttribNode>, n: nat, segs: seq<string>)
    requires WellFormed(t) && n < |t| && SeekSegments(t, n, segs).Some?
    ensures SeekSegments(t, n, segs).value >= n
    decreases segs
  {
    if segs != [] {
      SeekBelow(t, t[n].downRefs[segs[0]], segs[1..]);
    }
  }

  /** When `seek` misses, the early `seekMake` answers a new node. */
  lemma {:induction false} OldMakeMissing(t: seq<AttribNode>, n: nat, segs: seq<string>, trailing: bool)
    requires WellFormed(t) && n < |t| && SeekSegments(t, n, segs).None?
    ensures OldMakeSegments(t, n, segs, trailing).1 >= |t|
    decreases segs
  {
    if (|segs| > 1 || trailing) && segs[0] in t[n].downRefs {
      OldMakeMissing(t, t[n].downRefs[segs[0]], segs[1..], trailing);
    } else {
      AddChildWellFormed(t, n, segs[0]);
      var t1 := AddChild(t, n, segs[0]);
      OldMakeSegmentsEffect(t1, |t|, segs[1..], trailing);
      SeekBelow(OldMakeSegments(t1, |t|, segs[1..], trailing).0, |t|, segs[1..]);
    }
  }

  /** A path ending in `-` is made as the later `seekMake` makes it. */
  lemma OldMakeWithDash(t: seq<AttribNode>, start: nat, path: string)
    requires WellFormed(t) && start < |t| && EndsWithDash(path)
    ensures OldMake(t, start, path) == Make(t, start, path)
  {
    OldMakeTrailing(t, start, Segments(path, '-'));
  }

  /** Without a trailing `-`, the early `seekMake` makes all segments but the last as the later
      one does, then always adds a new node for the last one. */
  lemma {:induction false} OldMakeReplacesLast(t: seq<AttribNode>, n: nat, segs: seq<string>)
    requires WellFormed(t) && n < |t| && segs != []
    ensures var m := MakeSegments(t, n, segs[..|segs| - 1]);
      OldMakeSegments(t, n, segs, false) == (AddChild(m.0, m.1, segs[|segs| - 1]), |m.0|)
    decreases segs
  {
    var init := segs[..|segs| - 1];
    if |segs| == 1 {
      assert init == [];
    } else {
      var tail := segs[1..];
      assert init[0] == segs[0] && init[1..] == tail[..|tail| - 1] && tail[|tail| - 1] == segs[|segs| - 1];
      if segs[0] in t[n].downRefs {
        var c := t[n].downRefs[segs[0]];
        assert OldMakeSegments(t, n, segs, false) == OldMakeSegments(t, c, tail, false);
        assert MakeSegments(t, n, init) == MakeSegments(t, c, tail[..|tail| - 1]);
        OldMakeReplacesLast(t, c, tail);
      } else {
        AddChildWellFormed(t, n, segs[0]);
        var t1 := AddChild(t, n, segs[0]);
        assert OldMakeSegments(t, n, segs, false) == OldMakeSegments(t1, |t|, tail, false);
        assert MakeSegments(t, n, init) == MakeSegments(t1, |t|, tail[..|tail| - 1]);
        OldMakeReplacesLast(t1, |t|, tail);
      }
    }
  }

  /** Without a trailing `-`, the early `seekMake` of a non-empty path answers a node it has
      just appended, whatever the tree held before. */
  lemma OldMakeFresh(t: seq<AttribNode>, start: nat, path: string)
    requires WellFormed(t) && start < |t| && path != [] && !EndsWithDash(path)
    ensures |t| <= OldMake(t, start, path).1 == |OldMake(t, start, path).0| - 1
  {
    OldMakeReplacesLast(t, start, Segments(path, '-'));
  }

  /** A second early `seekMake` of the same path answers another node than the first: the first
      node is no longer what the path leads to. */
  lemma OldMakeTwiceDiffers(t: seq<AttribNode>, start: nat, path: string)
    requires WellFormed(t) && start < |t| && path != [] && !EndsWithDash(path)
    ensures var r1 := OldMake(t, start, path);
      var r2 := OldMake(r1.0, start, path);
      r2.1 != r1.1 && Seek(r2.0, start, path) == Some(r2.1)
  {
    var r1 := OldMake(t, start, path);
    OldMakeFresh(t, start, path);
    OldMakeFresh(r1.0, start, path);
  }

  // ---------------------------------------------------------------------------------------------
  // parseHyliteString

  /** `hylite.attributes << node` and `node.hyliteRefs << hylite`, both without a check for
      repeats. */
  function OldLink(reg: OldRegistry, n: nat, h: nat): (r: OldRegistry)
    requires WellFormed(reg.tree) && n < |reg.tree| && h < |reg.hylites|
    ensures WellFormed(r.tree) && |r.tree| == |reg.tree| && |r.hylites| == |reg.hylites|
    ensures r.hylites[h].attributes == reg.hylites[h].attributes + [n] && r.tree[n].hyliteRefs == reg.tree[n].hyliteRefs + [h]
  {
    AddRefShape(reg.tree, n, h);
    OldRegistry(AddRef(reg.tree, n, h), reg.hylites[h := reg.hylites[h].(attributes := reg.hylites[h].attributes + [n])])
  }

  /** The hylite an annotation names: a fresh one for the anonymous name `name-`; otherwise the
      first hylite the name node (found by `seek`, else made by `seekMake`) refers to, or a fresh
      one cross-linked with the name node. */
  function OldResolve(reg: OldRegistry, nas: string): (r: (OldRegistry, nat))
    requires OldValid(reg)
    ensures WellFormed(r.0.tree) && r.1 < |r.0.hylites|
  {
    if nas == "name-" then
      (reg.(hylites := reg.hylites + [OldHylite([], [])]), |reg.hylites|)
    else
      var found := Seek(reg.tree, 0, nas);
      var made := if found.Some? then (reg.tree, found.value) else OldMake(reg.tree, 0, nas);
      var t1 := made.0;
      var n := made.1;
      if t1[n].hyliteRefs != [] then
        assert n < |reg.tree| && t1[n].hyliteRefs == reg.tree[n].hyliteRefs;
        (OldRegistry(t1, reg.hylites), t1[n].hyliteRefs[0])
      else
        var h := |reg.hylites|;
        (OldLink(OldRegistry(t1, reg.hylites + [OldHylite([], [])]), n, h), h)
  }

  /** One attribute token: `seekMake` it from the root and cross-link it with hylite `h`. */
  function OldAttachOne(reg: OldRegistry, h: nat, token: string): (r: OldRegistry)
    requires WellFormed(reg.tree) && h < |reg.hylites|
    ensures WellFormed(r.tree) && |r.hylites| == |reg.hylites|
  {
    var (t1, a) := OldMake(reg.tree, 0, token);
    OldLink(OldRegistry(t1, reg.hylites), a, h)
  }

  /** The loop over the attribute tokens, in order. */
  function OldAttachAll(reg: OldRegistry, h: nat, tokens: seq<string>): (r: OldRegistry)
    requires WellFormed(reg.tree) && h < |reg.hylites|
    ensures WellFormed(r.tree) && |r.hylites| == |reg.hylites|
    decreases |tokens|
  {
    if tokens == [] then reg else OldAttachAll(OldAttachOne(reg, h, tokens[0]), h, tokens[1..])
  }

  /** `OldAttachAll` from the `i`-th token on is `OldAttachOne` of that token, then the rest. */
  lemma OldAttachAllStep(reg: OldRegistry, h: nat, tokens: seq<string>, i: nat)
    requires WellFormed(reg.tree) && h < |reg.hylites| && i < |tokens|
    ensures OldAttachAll(reg, h, tokens[i..]) == OldAttachAll(OldAttachOne(reg, h, tokens[i]), h, tokens[i + 1..])
  {
    assert tokens[i..][0] == tokens[i] && tokens[i..][1..] == tokens[i + 1..];
  }

  /** `hylite.texts << text if text.length > 0`. */
  function OldAddText(reg: OldRegistry, h: nat, text: string): (r: OldRegistry)
    requires h < |reg.hylites|
    ensures r.tree == reg.tree && |r.hylites| == |reg.hylites|
  {
    if |text| > 0 then reg.(hylites := reg.hylites[h := reg.hylites[h].(texts := reg.hylites[h].texts + [text])])
    else reg
  }

  /** A character of the early name class `[-\w]`, with the `\w` of Ruby 1.8 under `$KCODE = 'u'`. */
  predicate IsOldNameChar(c: char)
  {
    c == '-' || IsOldWordChar(c)
  }

  /** `name.sub` with the pattern `hylite\s*([-\w]*).*` of the early variant, with Ruby 1.8's
      classes: `\s` without the vertical tab, and a `\w` that takes every character outside
      ASCII. */
  function OldNameSub(name: string, prefix: string): string
  {
    NameSubBy(name, prefix, IsOldRegexSpace, IsOldNameChar)
  }

  /** The early substitution captures exactly the run of name characters after `hylite` and its
      white space, non-ASCII letters included. */
  lemma OldNameSubCapture(ws: string, w: string, rest: string, prefix: string)
    requires forall i :: 0 <= i < |ws| ==> IsOldRegexSpace(ws[i])
    requires forall i :: 0 <= i < |w| ==> IsOldNameChar(w[i])
    requires rest != [] ==> !IsOldNameChar(rest[0]) && (w == [] ==> !IsOldRegexSpace(rest[0]))
    requires '\n' !in rest
    ensures OldNameSub("hylite" + ws + w + rest, prefix) == prefix + w
  {
    assert w + rest != [] ==> (w + rest)[0] == if w != [] then w[0] else rest[0];
    NameSubByCapture(ws, w, rest, prefix, IsOldRegexSpace, IsOldNameChar);
  }

  /** `hylite café: x` is named `name-café`: the accented letter belongs to the name. */
  lemma OldNameSubAccented(name: string)
    requires name == "hylite café"
    ensures OldNameSub(name, "name-") == "name-café"
  {
    assert name == "hylite" + " " + "café" + "";
    OldNameSubCapture(" ", "café", "", "name-");
  }

  /** `parseHyliteString(string, hyliteSet)`: the registry afterwards and the hylite the
      annotation was added to. A string of colons only has no name section, on which the code
      fails, hence the precondition. */
  function OldParse(reg: OldRegistry, s: string): (r: (OldRegistry, nat))
    requires OldValid(reg)
    requires exists i :: 0 <= i < |s| && s[i] != ':'
    ensures WellFormed(r.0.tree) && r.1 < |r.0.hylites|
  {
    var (name, atts, text) := Sections(s);
    var (reg1, h) := OldResolve(reg, OldNameSub(name, "name-"));
    var reg2 := OldAttachAll(reg1, h, Segments(Strip(atts), ' '));
    (OldAddText(reg2, h, text), h)
  }

  // ---------------------------------------------------------------------------------------------
  // what parsing keeps and what it changes

  /** `seekMake` keeps a registry valid: the old nodes keep their references, new ones have none. */
  lemma OldMakeKeepsValid(reg: OldRegistry, path: string)
    requires OldValid(reg)
    ensures OldValid(OldRegistry(OldMake(reg.tree, 0, path).0, reg.hylites))
  {
  }

  /** Cross-linking keeps a registry valid. */
  lemma OldLinkKeepsValid(reg: OldRegistry, n: nat, h: nat)
    requires OldValid(reg) && n < |reg.tree| && h < |reg.hylites|
    ensures OldValid(OldLink(reg, n, h))
    ensures forall g :: 0 <= g < |reg.hylites| && g != h ==> OldLink(reg, n, h).hylites[g] == reg.hylites[g]
    ensures OldLink(reg, n, h).hylites[h].texts == reg.hylites[h].texts
  {
    var r := OldLink(reg, n, h);
    forall m, k | 0 <= m < |r.tree| && 0 <= k < |r.tree[m].hyliteRefs| ensures r.tree[m].hyliteRefs[k] < |r.hylites| {
      if m != n || k < |reg.tree[n].hyliteRefs| {
        assert r.tree[m].hyliteRefs[k] == reg.tree[m].hyliteRefs[k];
      }
    }
  }

  /** The name node of `nas` exists and refers to some hylite. */
  ghost predicate NameHasHylite(reg: OldRegistry, nas: string)
    requires WellFormed(reg.tree)
  {
    nas != "name-" && Seek(reg.tree, 0, nas).Some? && reg.tree[Seek(reg.tree, 0, nas).value].hyliteRefs != []
  }

  /** `nameAttribute.hyliteRefs[0]`. */
  ghost function NameHylite(reg: OldRegistry, nas: string): nat
    requires WellFormed(reg.tree) && NameHasHylite(reg, nas)
  {
    reg.tree[Seek(reg.tree, 0, nas).value].hyliteRefs[0]
  }

  /** Which hylite an annotation's name section resolves to: the first hylite of a name node that
      has one, leaving the registry as it was; otherwise a new hylite at the end, citing nothing
      when anonymous and only the name node when named. A named section always leaves its name
      node referring first to the hylite it resolved to. */
  lemma OldResolveEffect(reg: OldRegistry, nas: string)
    requires OldValid(reg)
    ensures var (r, h) := OldResolve(reg, nas);
      && OldValid(r)
      && (nas != "name-" ==> NameHasHylite(r, nas) && NameHylite(r, nas) == h)
      && (NameHasHylite(reg, nas) ==> r == reg && h == NameHylite(reg, nas))
      && (!NameHasHylite(reg, nas) ==>
            && h == |reg.hylites| && |r.hylites| == h + 1
            && (forall g :: 0 <= g < h ==> r.hylites[g] == reg.hylites[g])
            && r.hylites[h].texts == []
            && r.hylites[h].attributes == (if nas == "name-" then [] else [Seek(r.tree, 0, nas).value]))
  {
    if nas != "name-" {
      var found := Seek(reg.tree, 0, nas);
      if found.None? {
        OldResolveMade(reg, nas);
      } else if reg.tree[found.value].hyliteRefs == [] {
        OldResolveLinked(reg, nas, reg.tree, found.value);
      }
    }
  }

  /** A name `seek` misses is made, and the node made refers to no hylite yet. */
  lemma OldResolveMade(reg: OldRegistry, nas: string)
    requires OldValid(reg) && nas != "name-" && Seek(reg.tree, 0, nas).None?
    ensures var (r, h) := OldResolve(reg, nas);
      && OldValid(r) && h == |reg.hylites| && |r.hylites| == h + 1
      && (forall g :: 0 <= g < h ==> r.hylites[g] == reg.hylites[g])
      && NameHasHylite(r, nas) && NameHylite(r, nas) == h
      && r.hylites[h] == OldHylite([Seek(r.tree, 0, nas).value], [])
  {
    var (t1, n) := OldMake(reg.tree, 0, nas);
    OldMakeKeepsValid(reg, nas);
    OldMakeMissing(reg.tree, 0, Segments(nas, '-'), EndsWithDash(nas));
    OldResolveLinked(reg, nas, t1, n);
  }

  /** A name node without hylites gets a new hylite, cross-linked with it. */
  lemma OldResolveLinked(reg: OldRegistry, nas: string, t1: seq<AttribNode>, n: nat)
    requires OldValid(reg) && nas != "name-"
    requires OldValid(OldRegistry(t1, reg.hylites)) && Seek(t1, 0, nas) == Some(n) && t1[n].hyliteRefs == []
    ensures var h := |reg.hylites|;
      var r := OldLink(OldRegistry(t1, reg.hylites + [OldHylite([], [])]), n, h);
      && OldValid(r) && |r.hylites| == h + 1
      && (forall g :: 0 <= g < h ==> r.hylites[g] == reg.hylites[g])
      && r.hylites[h] == OldHylite([n], [])
      && NameHasHylite(r, nas) && NameHylite(r, nas) == h && Seek(r.tree, 0, nas) == Some(n)
  {
    var h := |reg.hylites|;
    var reg2 := OldRegistry(t1, reg.hylites + [OldHylite([], [])]);
    assert OldValid(reg2);
    OldLinkKeepsValid(reg2, n, h);
    AddRefShape(t1, n, h);
    SeekKept(t1, AddRef(t1, n, h), 0, Segments(nas, '-'));
  }

  /** One token adds to `h` exactly the node the token now leads to, and that node's last
      reference is `h`. */
  lemma OldAttachOneEffect(reg: OldRegistry, h: nat, token: string)
    requires OldValid(reg) && h < |reg.hylites|
    ensures var r := OldAttachOne(reg, h, token);
      && OldValid(r)
      && (forall g :: 0 <= g < |reg.hylites| && g != h ==> r.hylites[g] == reg.hylites[g])
      && r.hylites[h].texts == reg.hylites[h].texts
      && Seek(r.tree, 0, token).Some?
      && r.hylites[h].attributes == reg.hylites[h].attributes + [Seek(r.tree, 0, token).value]
      && (var a := Seek(r.tree, 0, token).value; r.tree[a].hyliteRefs != [] && r.tree[a].hyliteRefs[|r.tree[a].hyliteRefs| - 1] == h)
  {
    var (t1, a) := OldMake(reg.tree, 0, token);
    OldMakeKeepsValid(reg, token);
    OldLinkKeepsValid(OldRegistry(t1, reg.hylites), a, h);
    AddRefShape(t1, a, h);
    SeekKept(t1, AddRef(t1, a, h), 0, Segments(token, '-'));
  }

  /** Each token of a non-empty token without a trailing `-` gets a node of its own, cited by `h`
      alone: a repeated token does not lead back to the hylites that cited it before. */
  lemma OldAttachOneFresh(reg: OldRegistry, h: nat, token: string)
    requires OldValid(reg) && h < |reg.hylites| && token != [] && !EndsWithDash(token)
    ensures var r := OldAttachOne(reg, h, token);
      Seek(r.tree, 0, token) == Some(|r.tree| - 1) && r.tree[|r.tree| - 1].hyliteRefs == [h]
  {
    OldAttachOneEffect(reg, h, token);
    OldMakeFresh(reg.tree, 0, token);
    var (t1, a) := OldMake(reg.tree, 0, token);
    var r := OldAttachOne(reg, h, token);
    assert r == OldLink(OldRegistry(t1, reg.hylites), a, h);
    assert |r.tree| == |t1| && a == |t1| - 1 && t1[a].hyliteRefs == [];
    assert r.tree[a].hyliteRefs == [h];
    var x := reg.hylites[h].attributes;
    assert r.hylites[h].attributes == x + [a] == x + [Seek(r.tree, 0, token).value];
    assert (x + [a])[|x|] == a;
  }

  /** The tokens are added to `h` one by one, a repeated token once more each time. */
  lemma OldAttachAllEffect(reg: OldRegistry, h: nat, tokens: seq<string>)
    requires OldValid(reg) && h < |reg.hylites|
    ensures var r := OldAttachAll(reg, h, tokens);
      && OldValid(r)
      && (forall g :: 0 <= g < |reg.hylites| && g != h ==> r.hylites[g] == reg.hylites[g])
      && r.hylites[h].texts == reg.hylites[h].texts
      && |r.hylites[h].attributes| == |reg.hylites[h].attributes| + |tokens|
      && r.hylites[h].attributes[..|reg.hylites[h].attributes|] == reg.hylites[h].attributes
  {
    OldAttachAllKeeps(reg, h, tokens);
    OldAttachAllAttributes(reg, h, tokens);
  }

  /** The tokens keep the registry valid and touch only the attributes of `h`. */
  lemma {:induction false} OldAttachAllKeeps(reg: OldRegistry, h: nat, tokens: seq<string>)
    requires OldValid(reg) && h < |reg.hylites|
    ensures var r := OldAttachAll(reg, h, tokens);
      && OldValid(r)
      && (forall g :: 0 <= g < |reg.hylites| && g != h ==> r.hylites[g] == reg.hylites[g])
      && r.hylites[h].texts == reg.hylites[h].texts
    decreases |tokens|
  {
    if tokens != [] {
      var reg1 := OldAttachOne(reg, h, tokens[0]);
      OldAttachOneEffect(reg, h, tokens[0]);
      OldAttachAllKeeps(reg1, h, tokens[1..]);
    }
  }

  /** Each token appends one attribute to `h`. */
  lemma {:induction false} OldAttachAllAttributes(reg: OldRegistry, h: nat, tokens: seq<string>)
    requires OldValid(reg) && h < |reg.hylites|
    ensures var r := OldAttachAll(reg, h, tokens);
      && |r.hylites[h].attributes| == |reg.hylites[h].attributes| + |tokens|
      && r.hylites[h].attributes[..|reg.hylites[h].attributes|] == reg.hylites[h].attributes
    decreases |tokens|
  {
    if tokens != [] {
      var reg1 := OldAttachOne(reg, h, tokens[0]);
      OldAttachOneEffect(reg, h, tokens[0]);
      OldAttachAllAttributes(reg1, h, tokens[1..]);
      var now := OldAttachAll(reg1, h, tokens[1..]).hylites[h].attributes;
      var old0, old1 := reg.hylites[h].attributes, reg1.hylites[h].attributes;
      assert now[..|old1|][..|old0|] == now[..|old0|];
      assert old1[..|old0|] == old0;
    }
  }

  /** Parsing keeps the registry valid, adds at most one hylite at the end, leaves the others
      alone, gives `h` exactly one attribute per token (and the name node when it is new and
      named), and adds the text section when it is not empty. */
  lemma OldParseEffect(reg: OldRegistry, s: string)
    requires OldValid(reg)
    requires exists i :: 0 <= i < |s| && s[i] != ':'
    ensures var (r, h) := OldParse(reg, s);
      var (name, atts, text) := Sections(s);
      var nas := OldNameSub(name, "name-");
      && OldValid(r) && h <= |reg.hylites|
      && |r.hylites| == |reg.hylites| + (if h == |reg.hylites| then 1 else 0)
      && (forall g :: 0 <= g < |reg.hylites| && g != h ==> r.hylites[g] == reg.hylites[g])
      && (nas == "name-" ==> h == |reg.hylites|)
      && |r.hylites[h].attributes| ==
           (if h < |reg.hylites| then |reg.hylites[h].attributes| else if nas == "name-" then 0 else 1)
           + |Segments(Strip(atts), ' ')|
      && r.hylites[h].texts == (if h < |reg.hylites| then reg.hylites[h].texts else []) + (if |text| > 0 then [text] else [])
  {
    var (name, atts, text) := Sections(s);
    var nas := OldNameSub(name, "name-");
    var (reg1, h) := OldResolve(reg, nas);
    OldResolveEffect(reg, nas);
    OldAttachAllEffect(reg1, h, Segments(Strip(atts), ' '));
  }

  /** A name resolved a second time gives the same hylite and changes nothing. */
  lemma OldResolveTwice(reg: OldRegistry, nas: string)
    requires OldValid(reg) && nas != "name-"
    ensures OldValid(OldResolve(reg, nas).0)
    ensures var (r1, h1) := OldResolve(reg, nas);
      OldResolve(r1, nas) == (r1, h1)
  {
    OldResolveEffect(reg, nas);
  }

  // ---------------------------------------------------------------------------------------------
  // determine_type and line_hylite

  /** `$extension_to_type_map`: `TYPE_TO_EXTENSION_MAP` of lib/rb/hylib.rb inverted. */
  function OldExtensionType(x: string): (r: Option<Lexer.Language>)
    ensures r.Some? ==> r.value in {Lexer.Java, Lexer.C, Lexer.Cpp, Lexer.Perl, Lexer.Ruby, Lexer.Text}
    ensures |x| == 1 ==> (r == Some(Lexer.C) <==> x == "c" || x == "h") && (r.Some? ==> r == Some(Lexer.C))
  {
    if x == "java" then Some(Lexer.Java)
    else if x == "c" || x == "h" then Some(Lexer.C)
    else if x == "c++" || x == "cpp" then Some(Lexer.Cpp)
    else if x == "pl" || x == "perl" then Some(Lexer.Perl)
    else if x == "rb" || x == "ruby" || x == "rbw" then Some(Lexer.Ruby)
    else if x == "txt" || x == "out" then Some(Lexer.Text)
    else None
  }

  /** The last `.` of `s` before position `i`, wherever it stands. */
  function LastDotAnywhere(s: string, i: nat): (r: Option<nat>)
    requires i <= |s|
    ensures r.Some? ==> r.value < i && s[r.value] == '.'
    ensures forall j :: 0 <= j < i && (r.None? || r.value < j) ==> s[j] != '.'
  {
    if i == 0 then None
    else if s[i - 1] == '.' then Some(i - 1)
    else LastDotAnywhere(s, i - 1)
  }

  /** `determine_type()` of lib/rb/hylib.rb: `/.*\.(.?)/` captures at most the one character
      after the last `.`, and the type of that capture is looked up, `Text` when there is none. */
  function OldDetermineType(file: string): Lexer.Language
  {
    match LastDotAnywhere(file, |file|)
    case None => Lexer.Text
    case Some(j) =>
      match OldExtensionType(file[j + 1..if j + 1 < |file| then j + 2 else |file|])
      case None => Lexer.Text
      case Some(l) => l
  }

  /** The early `determine_type` only ever answers `C` or `Text`. */
  lemma OldDetermineTypeCOrText(file: string)
    ensures OldDetermineType(file) in {Lexer.C, Lexer.Text}
  {
    match LastDotAnywhere(file, |file|)
    case None =>
    case Some(j) =>
      var x := file[j + 1..if j + 1 < |file| then j + 2 else |file|];
      assert |x| <= 1;
      if |x| == 0 {
        assert x == [];
      }
  }

  /** A file name ending in `.x`, where `x` holds no `.`, is `C` when `x` starts with `c` or `h`
      and `Text` otherwise: `Foo.java` is `Text` and `Foo.cpp` is `C`. */
  lemma OldTypeOfExtension(stem: string, x: string)
    requires '.' !in x
    ensures OldDetermineType(stem + "." + x) == if x != [] && (x[0] == 'c' || x[0] == 'h') then Lexer.C else Lexer.Text
  {
    var file := stem + "." + x;
    assert file[|stem|] == '.';
    forall j | |stem| < j < |file| ensures file[j] != '.' {
      assert file[j] == x[j - |stem| - 1];
    }
    assert LastDotAnywhere(file, |file|) == Some(|stem|);
    var cap := file[|stem| + 1..if |stem| + 1 < |file| then |stem| + 2 else |file|];
    if x == [] {
      assert cap == [];
    } else {
      assert cap == [x[0]];
    }
  }

  /** `line_hylite(line)` of lib/rb/hylib.rb: the text from the last `hylite` followed by white
      space to the end of its line, on the first line that has one; nil when no line has one. */
  function OldLineHylite(line: string): (r: Option<string>)
    ensures r.Some? ==> |r.value| >= 7 && r.value[..6] == "hylite" && IsOldRegexSpace(r.value[6])
    ensures r.None? <==> forall j: nat :: !TriggerAt(line, j, OldSpace)
  {
    LineHyliteByNone(line, OldSpace);
    LineHyliteBy(line, OldSpace)
  }

  // ---------------------------------------------------------------------------------------------
  // findAllHylites in punt mode

  /** `hy.locations << Location.new(@file, ix)`, kept as one record of the scan: the hylite and
      the place it was found. */
  datatype OldFound = OldFound(hylite: nat, location: Entity.Location)

  /** The indexes, from `i` on, of the lines on which the early `line_hylite` finds a hylite, in
      ascending order. */
  function CapturedLines(lines: seq<string>, i: nat): (r: seq<nat>)
    requires i <= |lines|
    ensures forall k :: 0 <= k < |r| ==> i <= r[k] < |lines| && OldLineHylite(lines[r[k]]).Some?
    ensures forall k, m :: 0 <= k < m < |r| ==> r[k] < r[m]
    ensures forall j :: i <= j < |lines| && OldLineHylite(lines[j]).Some? ==> j in r
    decreases |lines| - i
  {
    if i == |lines| then []
    else if OldLineHylite(lines[i]).Some? then [i] + CapturedLines(lines, i + 1)
    else CapturedLines(lines, i + 1)
  }

  /** A capture of `line_hylite` has a name section, so `parseHyliteString` can take it. */
  lemma OldLineHyliteParsable(line: string)
    requires OldLineHylite(line).Some?
    ensures var s := OldLineHylite(line).value; exists i :: 0 <= i < |s| && s[i] != ':'
  {
    var s := OldLineHylite(line).value;
    assert s[..6][0] == 'h';
  }

  /** What the scan needs of one parse: the set stays valid and no hylite goes away. */
  lemma OldParseGrows(reg: OldRegistry, s: string)
    requires OldValid(reg)
    requires exists i :: 0 <= i < |s| && s[i] != ':'
    ensures OldValid(OldParse(reg, s).0) && |reg.hylites| <= |OldParse(reg, s).0.hylites|
  {
    OldParseEffect(reg, s);
  }

  /** The punt-mode loop of `findAllHylites` (`@@punt_mode = true`), from line `i` of `file` on:
      each line's `line_hylite` capture is parsed into the set, and the hylite it went to is
      recorded with the line's index. The set stays valid and no hylite goes away. */
  function OldPunt(reg: OldRegistry, file: string, lines: seq<string>, i: nat): (r: (OldRegistry, seq<OldFound>))
    requires OldValid(reg) && i <= |lines|
    ensures OldValid(r.0) && |reg.hylites| <= |r.0.hylites|
    decreases |lines| - i
  {
    if i == |lines| then (reg, [])
    else match OldLineHylite(lines[i])
      case None => OldPunt(reg, file, lines, i + 1)
      case Some(s) =>
        OldLineHyliteParsable(lines[i]);
        OldParseGrows(reg, s);
        var (reg1, h) := OldParse(reg, s);
        var (reg2, found) := OldPunt(reg1, file, lines, i + 1);
        (reg2, [OldFound(h, Entity.Location(file, i))] + found)
  }

  /** The end of the scan from line `i` on, after the records `found` of the lines before. */
  function OldPuntAfter(reg: OldRegistry, file: string, lines: seq<string>, i: nat, found: seq<OldFound>): (r: (OldRegistry, seq<OldFound>))
    requires OldValid(reg) && i <= |lines|
    ensures |found| <= |r.1| && r.1[..|found|] == found
  {
    var (reg1, rest) := OldPunt(reg, file, lines, i);
    assert (found + rest)[..|found|] == found;
    (reg1, found + rest)
  }

  /** Lines without a hylite leave the set as it is and record nothing. */
  lemma {:induction false} OldPuntNothingFound(reg: OldRegistry, file: string, lines: seq<string>, i: nat)
    requires OldValid(reg) && i <= |lines|
    requires forall j :: i <= j < |lines| ==> OldLineHylite(lines[j]).None?
    ensures OldPunt(reg, file, lines, i) == (reg, [])
    decreases |lines| - i
  {
    if i < |lines| {
      OldPuntNothingFound(reg, file, lines, i + 1);
    }
  }

  /** There is one record per line with a hylite, in the order of the lines, and each names a
      hylite of the resulting set. */
  lemma {:induction false} OldPuntRecords(reg: OldRegistry, file: string, lines: seq<string>, i: nat)
    requires OldValid(reg) && i <= |lines|
    ensures var r := OldPunt(reg, file, lines, i);
      var c := CapturedLines(lines, i);
      && |r.1| == |c|
      && forall k :: 0 <= k < |r.1| ==>
           r.1[k].hylite < |r.0.hylites| && r.1[k].location == Entity.Location(file, c[k])
    decreases |lines| - i
  {
    if i < |lines| {
      match OldLineHylite(lines[i])
      case None =>
        OldPuntRecords(reg, file, lines, i + 1);
      case Some(s) =>
        OldLineHyliteParsable(lines[i]);
        OldParseGrows(reg, s);
        var (reg1, h) := OldParse(reg, s);
        OldPuntRecords(reg1, file, lines, i + 1);
        assert CapturedLines(lines, i) == [i] + CapturedLines(lines, i + 1);
    }
  }

  /** A line without a hylite is passed over. */
  lemma OldPuntSkip(reg: OldRegistry, file: string, lines: seq<string>, i: nat, found: seq<OldFound>)
    requires OldValid(reg) && i < |lines| && OldLineHylite(lines[i]).None?
    ensures OldPunt(reg, file, lines, i) == OldPunt(reg, file, lines, i + 1)
    ensures OldPuntAfter(reg, file, lines, i + 1, found + []) == OldPuntAfter(reg, file, lines, i, found)
  {
    assert found + [] == found;
  }

  /** A line with a hylite is parsed into the set, and its record, naming the hylite parsing
      answered, comes before those of the rest of the file: the scan from line `i` on, after
      the records `found`, goes on as the scan from line `i + 1` on after one record more. */
  lemma OldPuntParse(reg: OldRegistry, file: string, lines: seq<string>, i: nat, s: string, found: seq<OldFound>, reg1: OldRegistry, h: nat)
    requires OldValid(reg) && i < |lines| && OldLineHylite(lines[i]) == Some(s)
    requires (reg1, h) == OldParse(reg, s)
    ensures OldValid(reg1)
    ensures OldPuntAfter(reg1, file, lines, i + 1, found + [OldFound(h, Entity.Location(file, i))])
         == OldPuntAfter(reg, file, lines, i, found)
  {
    OldLineHyliteParsable(lines[i]);
    OldParseGrows(reg, s);
    var rest := OldPunt(reg1, file, lines, i + 1).1;
    assert OldPunt(reg, file, lines, i).1 == [OldFound(h, Entity.Location(file, i))] + rest;
    assert (found + [OldFound(h, Entity.Location(file, i))]) + rest == found + ([OldFound(h, Entity.Location(file, i))] + rest);
  }

  // ---------------------------------------------------------------------------------------------
  // HyliteSet and the scanner's parseHyliteString, as objects

  /** The early `HyliteSet`: the attribute tree and the hylites, updated in place by parsing. */
  class OldHyliteSet {
    var tree: seq<AttribNode>
    var hylites: seq<OldHylite>

    function Contents(): OldRegistry
      reads this
    {
      OldRegistry(tree, hylites)
    }

    /** `HyliteSet.new`: a root called `root` and no hylites. */
    constructor ()
      ensures Contents() == OldEmpty()
    {
      tree := [NewNode("root", None)];
      hylites := [];
    }

    /** `hylite.attributes << node` and `node.hyliteRefs << hylite`. */
    method Link(n: nat, h: nat)
      requires WellFormed(tree) && n < |tree| && h < |hylites|
      modifies this
      ensures Contents() == OldLink(old(Contents()), n, h)
    {
      AddRefShape(tree, n, h);
      tree := AddRef(tree, n, h);
      hylites := hylites[h := hylites[h].(attributes := hylites[h].attributes + [n])];
    }

    /** The name part of `parseHyliteString`: the hylite that `nas` names, made when needed. */
    method ResolveName(nas: string) returns (h: nat)
      requires OldValid(Contents())
      modifies this
      ensures (Contents(), h) == OldResolve(old(Contents()), nas)
    {
      if nas == "name-" {
        h := |hylites|;
        hylites := hylites + [OldHylite([], [])];
        return;
      }
      var found := Seek(tree, 0, nas);
      var n: nat;
      if found.None? {
        tree, n := OldMakeWalk(tree, 0, nas);
      } else {
        n := found.value;
      }
      if tree[n].hyliteRefs != [] {
        h := tree[n].hyliteRefs[0];
      } else {
        h := |hylites|;
        hylites := hylites + [OldHylite([], [])];
        Link(n, h);
      }
    }

    /** `parseHyliteString(string, self)`: resolve the name, `seekMake` and cross-link each
        attribute token, add a non-empty text. */
    method Parse(s: string) returns (h: nat)
      requires OldValid(Contents())
      requires exists i :: 0 <= i < |s| && s[i] != ':'
      modifies this
      ensures (Contents(), h) == OldParse(old(Contents()), s)
    {
      var (name, atts, text) := Sections(s);
      h := ResolveName(OldNameSub(name, "name-"));
      var tokens := Segments(Strip(atts), ' ');
      ghost var reg1 := Contents();
      var i := 0;
      assert tokens[i..] == tokens;
      while i < |tokens|
        invariant 0 <= i <= |tokens| && WellFormed(tree) && h < |hylites|
        invariant OldAttachAll(Contents(), h, tokens[i..]) == OldAttachAll(reg1, h, tokens)
      {
        OldAttachAllStep(Contents(), h, tokens, i);
        var a;
        tree, a := OldMakeWalk(tree, 0, tokens[i]);
        Link(a, h);
        i := i + 1;
      }
      assert tokens[i..] == [];
      if |text| > 0 {
        hylites := hylites[h := hylites[h].(texts := hylites[h].texts + [text])];
      }
    }

    /** One turn of the punt-mode loop: line `ix` is searched with `line_hylite`, and its
        capture, if any, is parsed into the set and recorded. After the records `found`, the
        scan from line `ix` on ends as the scan from line `ix + 1` on after the new records. */
    method ScanLine(file: string, lines: seq<string>, ix: nat, ghost found: seq<OldFound>) returns (more: seq<OldFound>)
      requires OldValid(Contents()) && ix < |lines|
      modifies this
      ensures OldValid(Contents())
      ensures OldPuntAfter(Contents(), file, lines, ix + 1, found + more)
           == OldPuntAfter(old(Contents()), file, lines, ix, found)
    {
      var hystr := OldLineHylite(lines[ix]);
      if hystr.Some? {
        ghost var before := Contents();
        OldLineHyliteParsable(lines[ix]);
        var hy := Parse(hystr.value);
        OldPuntParse(before, file, lines, ix, hystr.value, found, Contents(), hy);
        more := [OldFound(hy, Entity.Location(file, ix))];
      } else {
        OldPuntSkip(Contents(), file, lines, ix, found);
        more := [];
      }
    }

    /** `findAllHylites(result)` in punt mode, with `self` as the result set: every line of
        `file` is searched with `line_hylite`, each capture is parsed into the set, and the
        hylite it went to is recorded with the line's index, as `OldPunt` says. */
    method FindAllHylites(file: string, lines: seq<string>) returns (found: seq<OldFound>)
      requires OldValid(Contents())
      modifies this
      ensures (Contents(), found) == OldPunt(old(Contents()), file, lines, 0)
    {
      ghost var final := OldPuntAfter(Contents(), file, lines, 0, []);
      found := [];
      var ix := 0;
      while ix < |lines|
        invariant ix <= |lines| && OldValid(Contents())
        invariant OldPuntAfter(Contents(), file, lines, ix, found) == final
      {
        var more := ScanLine(file, lines, ix, found);
        found := found + more;
        ix := ix + 1;
      }
      assert found + [] == found;
      assert [] + OldPunt(old(Contents()), file, lines, 0).1 == OldPunt(old(Contents()), file, lines, 0).1;
    }

    /** `each_name`: the nodes below `name`, pre-order with children in ascending key order,
        `name` itself left out, none when there is no `name` node; none is visited twice. */
    method EachName() returns (nodes: seq<nat>)
      requires WellFormed(tree)
      ensures Seek(tree, 0, "name").None? ==> nodes == []
      ensures Seek(tree, 0, "name").Some? ==>
        var m := Seek(tree, 0, "name").value;
        && nodes == Walk(tree, m) && NoDuplicates(nodes)
        && forall x :: x in nodes ==> x != m && AtOrBelow(tree, x, m)
    {
      var name := Seek(tree, 0, "name");
      if name.None? {
        return [];
      }
      nodes := EachWalker(tree, name.value);
      WalkNoDuplicates(tree, name.value);
      WalkBelow(tree, name.value);
    }
  }
}

/** The attribute tree (`AttribNode`), held as an arena: node `i` of a `seq<AttribNode>` is one
    node object, a parent or child reference is an index into the sequence, and the root is node 0.
    Nodes are only ever appended, so a parent always has a smaller index than its children. */
module Trie {
  import opened Strings

  /** One node: its own name segment, its parent (`upRef`, none for the root), its children by
      name (`downRefs`) and every hylite that cites it (`hyliteRefs`, indices of hylites). */
  datatype AttribNode = AttribNode(name: string, upRef: Option<nat>, downRefs: map<string, nat>, hyliteRefs: seq<nat>)

  /** `AttribNode.new(name)` with its `upRef` set. */
  function NewNode(name: string, up: Option<nat>): AttribNode
  {
    AttribNode(name, up, map[], [])
  }

  /** Parent links point to earlier nodes and only the root has none; a child-map entry `k -> c`
      names a node `c` called `k` whose parent is the owner of the map. */
  ghost predicate WellFormed(t: seq<AttribNode>)
  {
    && |t| > 0
    && t[0].upRef.None?
    && (forall i :: 0 < i < |t| ==> t[i].upRef.Some? && t[i].upRef.value < i)
    && (forall i, k :: 0 <= i < |t| && k in t[i].downRefs ==>
          t[i].downRefs[k] < |t| && t[t[i].downRefs[k]].upRef == Some(i) && t[t[i].downRefs[k]].name == k)
  }

  /** Every node but the root is listed under its own name in its parent's child map: no node is
      ever unlinked, as with the later variant's `seekMake`. */
  ghost predicate Registered(t: seq<AttribNode>)
    requires WellFormed(t)
  {
    forall i :: 0 < i < |t| ==>
      t[i].name in t[t[i].upRef.value].downRefs && t[t[i].upRef.value].downRefs[t[i].name] == i
  }

  /** `t2` is `t` after some nodes were appended and some child-map entries added: names, parents
      and hylite references of the old nodes are untouched and no old child entry moved. */
  ghost predicate Extends(t: seq<AttribNode>, t2: seq<AttribNode>)
  {
    && |t| <= |t2|
    && forall i :: 0 <= i < |t| ==>
         && t2[i].name == t[i].name && t2[i].upRef == t[i].upRef && t2[i].hyliteRefs == t[i].hyliteRefs
         && forall k :: k in t[i].downRefs ==> k in t2[i].downRefs && t2[i].downRefs[k] == t[i].downRefs[k]
  }

  lemma ExtendsTransitive(t1: seq<AttribNode>, t2: seq<AttribNode>, t3: seq<AttribNode>)
    requires Extends(t1, t2) && Extends(t2, t3)
    ensures Extends(t1, t3)
  {
  }

  /** Like `Extends`, but hylite references may also have been appended to old nodes. */
  ghost predicate Grows(t: seq<AttribNode>, t2: seq<AttribNode>)
  {
    && |t| <= |t2|
    && forall i :: 0 <= i < |t| ==>
         && t2[i].name == t[i].name && t2[i].upRef == t[i].upRef && IsPrefixOf(t[i].hyliteRefs, t2[i].hyliteRefs)
         && forall k :: k in t[i].downRefs ==> k in t2[i].downRefs && t2[i].downRefs[k] == t[i].downRefs[k]
  }

  lemma GrowsTransitive(t1: seq<AttribNode>, t2: seq<AttribNode>, t3: seq<AttribNode>)
    requires Grows(t1, t2) && Grows(t2, t3)
    ensures Grows(t1, t3)
  {
    forall i | 0 <= i < |t1| ensures IsPrefixOf(t1[i].hyliteRefs, t3[i].hyliteRefs) {
      PrefixTransitive(t1[i].hyliteRefs, t2[i].hyliteRefs, t3[i].hyliteRefs);
    }
  }

  lemma ExtendsGrows(t: seq<AttribNode>, t2: seq<AttribNode>)
    requires Extends(t, t2)
    ensures Grows(t, t2)
  {
  }

  // ---------------------------------------------------------------------------------------------
  // seek

  /** The walk of `seek` over already-split path segments. */
  function SeekSegments(t: seq<AttribNode>, n: nat, segs: seq<string>): (r: Option<nat>)
    requires WellFormed(t) && n < |t|
    ensures r.Some? ==> r.value < |t|
    decreases segs
  {
    if segs == [] then Some(n)
    else if segs[0] in t[n].downRefs then SeekSegments(t, t[n].downRefs[segs[0]], segs[1..])
    else None
  }

  /** `node.seek(path)`: follow the `-`-separated segments of `path` down from `start`; nil at the
      first segment that is not a child. Nothing is created. */
  function Seek(t: seq<AttribNode>, start: nat, path: string): (r: Option<nat>)
    requires WellFormed(t) && start < |t|
    ensures r.Some? ==> r.value < |t|
  {
    SeekSegments(t, start, Segments(path, '-'))
  }

  /** Seeking a path in two parts is seeking the first part and then the second from where it
      ended; so the walk answers nil as soon as one segment is missing, whatever follows. */
  lemma {:induction false} SeekSegmentsAppend(t: seq<AttribNode>, n: nat, a: seq<string>, b: seq<string>)
    requires WellFormed(t) && n < |t|
    ensures SeekSegments(t, n, a + b) ==
              match SeekSegments(t, n, a)
              case None => None
              case Some(m) => SeekSegments(t, m, b)
    decreases a
  {
    if a == [] {
      assert a + b == b;
    } else {
      assert (a + b)[0] == a[0] && (a + b)[1..] == a[1..] + b;
      if a[0] in t[n].downRefs {
        SeekSegmentsAppend(t, t[n].downRefs[a[0]], a[1..], b);
      }
    }
  }

  /** `seek` answers nil at the first missing segment, whatever follows it. */
  lemma SeekStopsAtMissing(t: seq<AttribNode>, n: nat, a: seq<string>, m: nat, k: string, b: seq<string>)
    requires WellFormed(t) && n < |t|
    requires SeekSegments(t, n, a) == Some(m) && k !in t[m].downRefs
    ensures SeekSegments(t, n, a + [k] + b) == None
  {
    SeekSegmentsAppend(t, n, a, [k] + b);
    assert a + [k] + b == a + ([k] + b);
  }

  /** A path found before the tree grew is still found, at the same node, afterwards: a path
      string resolves to the same node for the lifetime of the tree. */
  lemma {:induction false} SeekKept(t: seq<AttribNode>, t2: seq<AttribNode>, n: nat, segs: seq<string>)
    requires WellFormed(t) && WellFormed(t2) && Grows(t, t2) && n < |t|
    requires SeekSegments(t, n, segs).Some?
    ensures SeekSegments(t2, n, segs) == SeekSegments(t, n, segs)
    decreases segs
  {
    if segs != [] {
      SeekKept(t, t2, t[n].downRefs[segs[0]], segs[1..]);
    }
  }

  // ---------------------------------------------------------------------------------------------
  // seekMake

  /** Append a node called `name` under `n` and enter it in `n`'s child map. */
  function AddChild(t: seq<AttribNode>, n: nat, name: string): (r: seq<AttribNode>)
    requires WellFormed(t) && n < |t|
    ensures |r| == |t| + 1 && r[|t|] == NewNode(name, Some(n))
    ensures r[n].downRefs == t[n].downRefs[name := |t|]
    ensures forall i :: 0 <= i < |t| && i != n ==> r[i] == t[i]
  {
    t[n := t[n].(downRefs := t[n].downRefs[name := |t|])] + [NewNode(name, Some(n))]
  }

  lemma AddChildProperties(t: seq<AttribNode>, n: nat, name: string)
    requires WellFormed(t) && n < |t| && name !in t[n].downRefs
    ensures WellFormed(AddChild(t, n, name)) && Extends(t, AddChild(t, n, name))
    ensures Registered(t) ==> Registered(AddChild(t, n, name))
  {
    AddChildWellFormed(t, n, name);
    AddChildExtends(t, n, name);
    if Registered(t) {
      AddChildRegistered(t, n, name);
    }
  }

  /** Adding a child keeps the tree well formed, even when it takes the place of an existing
      child of the same name. */
  lemma AddChildWellFormed(t: seq<AttribNode>, n: nat, name: string)
    requires WellFormed(t) && n < |t|
    ensures WellFormed(AddChild(t, n, name))
  {
    var r := AddChild(t, n, name);
    forall i, k | 0 <= i < |r| && k in r[i].downRefs
      ensures r[i].downRefs[k] < |r| && r[r[i].downRefs[k]].upRef == Some(i) && r[r[i].downRefs[k]].name == k
    {
      if i != n || k != name {
        assert i < |t| && k in t[i].downRefs && r[i].downRefs[k] == t[i].downRefs[k];
        var c := t[i].downRefs[k];
        assert c != |t| && r[c] == if c == n then r[n] else t[c];
      }
    }
  }

  lemma AddChildExtends(t: seq<AttribNode>, n: nat, name: string)
    requires WellFormed(t) && n < |t| && name !in t[n].downRefs
    ensures Extends(t, AddChild(t, n, name))
  {
  }

  lemma AddChildRegistered(t: seq<AttribNode>, n: nat, name: string)
    requires WellFormed(t) && Registered(t) && n < |t| && name !in t[n].downRefs
    requires WellFormed(AddChild(t, n, name))
    ensures Registered(AddChild(t, n, name))
  {
    var r := AddChild(t, n, name);
    forall i | 0 < i < |r|
      ensures r[i].name in r[r[i].upRef.value].downRefs && r[r[i].upRef.value].downRefs[r[i].name] == i
    {
      if i < |t| {
        var p := t[i].upRef.value;
        assert r[i] == if i == n then r[n] else t[i];
        assert t[i].name in t[p].downRefs && t[p].downRefs[t[i].name] == i;
        assert t[i].name != name || p != n;
      }
    }
  }

  /** `seekMake` over already-split segments: walk down from `n`, creating every missing segment
      as a new node whose `upRef` is its predecessor; answer the tree and the last node. */
  function MakeSegments(t: seq<AttribNode>, n: nat, segs: seq<string>): (r: (seq<AttribNode>, nat))
    requires WellFormed(t) && n < |t|
    ensures WellFormed(r.0) && Extends(t, r.0) && r.1 < |r.0|
    ensures SeekSegments(r.0, n, segs) == Some(r.1)
    ensures forall i :: |t| <= i < |r.0| ==> r.0[i].hyliteRefs == []
    decreases segs
  {
    if segs == [] then (t, n)
    else if segs[0] in t[n].downRefs then
      var r := MakeSegments(t, t[n].downRefs[segs[0]], segs[1..]);
      assert segs[0] in r.0[n].downRefs && r.0[n].downRefs[segs[0]] == t[n].downRefs[segs[0]];
      r
    else
      AddChildWellFormed(t, n, segs[0]);
      AddChildExtends(t, n, segs[0]);
      var t1 := AddChild(t, n, segs[0]);
      var r := MakeSegments(t1, |t|, segs[1..]);
      ExtendsTransitive(t, t1, r.0);
      assert segs[0] in r.0[n].downRefs && r.0[n].downRefs[segs[0]] == |t|;
      r
  }

  /** `seekMake`'s loop on `segs` from `start` in `t0` has reached tree `t`, node `n`, segment
      `i`: what is left to do ends where the whole walk ends. */
  ghost predicate MakeProgress(t0: seq<AttribNode>, start: nat, segs: seq<string>, t: seq<AttribNode>, n: nat, i: nat)
  {
    && WellFormed(t0) && start < |t0| && WellFormed(t) && n < |t| && i <= |segs|
    && MakeSegments(t, n, segs[i..]) == MakeSegments(t0, start, segs)
  }

  /** The loop of `seekMake` starts and ends where `MakeSegments` does. */
  lemma MakeProgressBounds(t0: seq<AttribNode>, start: nat, segs: seq<string>, t: seq<AttribNode>, n: nat)
    requires WellFormed(t0) && start < |t0|
    ensures MakeProgress(t0, start, segs, t0, start, 0)
    ensures MakeProgress(t0, start, segs, t, n, |segs|) ==> MakeSegments(t0, start, segs) == (t, n)
  {
    assert segs[0..] == segs;
    assert segs[|segs|..] == [];
  }

  /** One step of `seekMake`'s loop at segment `i`: descend into the existing child, or add it. */
  lemma MakeProgressStep(t0: seq<AttribNode>, start: nat, segs: seq<string>, t: seq<AttribNode>, n: nat, i: nat,
                         t2: seq<AttribNode>, n2: nat)
    requires MakeProgress(t0, start, segs, t, n, i) && i < |segs|
    requires segs[i] in t[n].downRefs ==> t2 == t && n2 == t[n].downRefs[segs[i]]
    requires segs[i] !in t[n].downRefs ==> t2 == AddChild(t, n, segs[i]) && n2 == |t|
    ensures MakeProgress(t0, start, segs, t2, n2, i + 1)
  {
    assert segs[i..][0] == segs[i] && segs[i..][1..] == segs[i + 1..];
    if segs[i] !in t[n].downRefs {
      AddChildWellFormed(t, n, segs[i]);
    }
  }

  /** `node.seekMake(path)` of lib/rb/esus/hylib.rb. */
  function Make(t: seq<AttribNode>, start: nat, path: string): (r: (seq<AttribNode>, nat))
    requires WellFormed(t) && start < |t|
    ensures WellFormed(r.0) && Extends(t, r.0) && r.1 < |r.0|
    ensures Seek(r.0, start, path) == Some(r.1)
    ensures forall i :: |t| <= i < |r.0| ==> r.0[i].hyliteRefs == []
  {
    MakeSegments(t, start, Segments(path, '-'))
  }

  /** The loop of `seekMake`: walk the segments of `path` from `start`, descending into the
      child of each segment or adding it when it is missing. */
  method MakeWalk(t0: seq<AttribNode>, start: nat, path: string) returns (t: seq<AttribNode>, n: nat)
    requires WellFormed(t0) && start < |t0|
    ensures (t, n) == Make(t0, start, path)
  {
    var segs := Segments(path, '-');
    t, n := t0, start;
    var i := 0;
    MakeProgressBounds(t0, start, segs, t, n);
    while i < |segs|
      invariant MakeProgress(t0, start, segs, t, n, i)
    {
      ghost var (t1, n1) := (t, n);
      var part := segs[i];
      if part in t[n].downRefs {
        n := t[n].downRefs[part];
      } else {
        t := AddChild(t, n, part);
        n := |t| - 1;
      }
      MakeProgressStep(t0, start, segs, t1, n1, i, t, n);
      i := i + 1;
    }
    MakeProgressBounds(t0, start, segs, t, n);
  }

  /** `seekMake` keeps every node linked into its parent's child map. */
  lemma {:induction false} MakeKeepsRegistered(t: seq<AttribNode>, n: nat, segs: seq<string>)
    requires WellFormed(t) && Registered(t) && n < |t|
    ensures Registered(MakeSegments(t, n, segs).0)
    decreases segs
  {
    if segs != [] {
      if segs[0] in t[n].downRefs {
        MakeKeepsRegistered(t, t[n].downRefs[segs[0]], segs[1..]);
      } else {
        AddChildProperties(t, n, segs[0]);
        MakeKeepsRegistered(AddChild(t, n, segs[0]), |t|, segs[1..]);
      }
    }
  }

  /** When the path already exists `seekMake` changes nothing and answers the node `seek` finds. */
  lemma {:induction false} MakeIdempotent(t: seq<AttribNode>, n: nat, segs: seq<string>)
    requires WellFormed(t) && n < |t|
    requires SeekSegments(t, n, segs).Some?
    ensures MakeSegments(t, n, segs) == (t, SeekSegments(t, n, segs).value)
    decreases segs
  {
    if segs != [] {
      MakeIdempotent(t, t[n].downRefs[segs[0]], segs[1..]);
    }
  }

  /** A second `seekMake` of the same path answers the same node and adds no node or child. */
  lemma MakeTwice(t: seq<AttribNode>, start: nat, path: string)
    requires WellFormed(t) && start < |t|
    ensures Make(Make(t, start, path).0, start, path) == Make(t, start, path)
  {
    var r := Make(t, start, path);
    MakeIdempotent(r.0, start, Segments(path, '-'));
  }

  // ---------------------------------------------------------------------------------------------
  // level, to_a, to_s, to_s_fancy

  /** `node.level`: the number of parent links from the node up to the root. */
  function Level(t: seq<AttribNode>, n: nat): nat
    requires WellFormed(t) && n < |t|
    decreases n
  {
    if t[n].upRef.None? then 0 else 1 + Level(t, t[n].upRef.value)
  }

  /** `node.to_a`: the names from the root down to the node. */
  function ToA(t: seq<AttribNode>, n: nat): (r: seq<string>)
    requires WellFormed(t) && n < |t|
    ensures |r| >= 1 && r[0] == t[0].name && r[|r| - 1] == t[n].name
    decreases n
  {
    if t[n].upRef.None? then [t[n].name] else ToA(t, t[n].upRef.value) + [t[n].name]
  }

  /** `node.to_s`: the path from the root, joined with `-`. */
  function ToS(t: seq<AttribNode>, n: nat): string
    requires WellFormed(t) && n < |t|
    decreases n
  {
    if t[n].upRef.None? then t[n].name else ToS(t, t[n].upRef.value) + "-" + t[n].name
  }

  /** `node.to_s_fancy`: nil for the root, otherwise the path without the root's own name. */
  function ToSFancy(t: seq<AttribNode>, n: nat): Option<string>
    requires WellFormed(t) && n < |t|
    decreases n
  {
    if t[n].upRef.None? then None
    else match ToSFancy(t, t[n].upRef.value)
      case None => Some(t[n].name)
      case Some(up) => Some(up + "-" + t[n].name)
  }

  lemma JoinSnoc(xs: seq<string>, x: string, sep: char)
    requires xs != []
    ensures Join(xs + [x], sep) == Join(xs, sep) + [sep] + x
    decreases |xs|
  {
    if |xs| > 1 {
      assert (xs + [x])[1..] == xs[1..] + [x];
      JoinSnoc(xs[1..], x, sep);
    }
  }

  /** `level` is the number of links, `to_s` is `to_a` joined with `-`, and `to_s_fancy` is nil
      exactly for the root and otherwise `to_a` without its first (the root's) name, joined. */
  lemma {:induction false} PathViews(t: seq<AttribNode>, n: nat)
    requires WellFormed(t) && n < |t|
    ensures |ToA(t, n)| == Level(t, n) + 1
    ensures Level(t, n) == 0 <==> n == 0
    ensures ToS(t, n) == Join(ToA(t, n), '-')
    ensures ToSFancy(t, n) == if n == 0 then None else Some(Join(ToA(t, n)[1..], '-'))
    decreases n
  {
    if t[n].upRef.Some? {
      var p := t[n].upRef.value;
      PathViews(t, p);
      JoinSnoc(ToA(t, p), t[n].name, '-');
      if p != 0 {
        assert ToA(t, n)[1..] == ToA(t, p)[1..] + [t[n].name];
        JoinSnoc(ToA(t, p)[1..], t[n].name, '-');
      } else {
        assert ToA(t, n)[1..] == [t[n].name];
      }
    }
  }

  // ---------------------------------------------------------------------------------------------
  // each_walker

  /** `a` is `x` or one of its ancestors. */
  ghost predicate AtOrBelow(t: seq<AttribNode>, x: nat, a: nat)
    requires WellFormed(t) && x < |t|
    decreases x
  {
    x == a || (t[x].upRef.Some? && AtOrBelow(t, t[x].upRef.value, a))
  }

  /** The order in which `each_walker(start, proc)` calls `proc`: pre-order below `start`, the
      children of each node in ascending order of their names, `start` itself left out. */
  function Walk(t: seq<AttribNode>, n: nat): (r: seq<nat>)
    requires WellFormed(t) && n < |t|
    ensures forall i :: 0 <= i < |r| ==> n < r[i] < |t|
    decreases |t| - n, 1
  {
    WalkKeys(t, n, SortedKeys(t[n].downRefs.Keys))
  }

  /** The visits made for the children of `n` listed under the keys `ks`, in that order. */
  function WalkKeys(t: seq<AttribNode>, n: nat, ks: seq<string>): (r: seq<nat>)
    requires WellFormed(t) && n < |t|
    requires forall k :: k in ks ==> k in t[n].downRefs
    ensures forall i :: 0 <= i < |r| ==> n < r[i] < |t|
    decreases |t| - n, 0, |ks|
  {
    if ks == [] then []
    else
      var c := t[n].downRefs[ks[0]];
      [c] + Walk(t, c) + WalkKeys(t, n, ks[1..])
  }

  lemma {:induction false} AtOrBelowTransitive(t: seq<AttribNode>, x: nat, y: nat, z: nat)
    requires WellFormed(t) && x < |t| && y < |t|
    requires AtOrBelow(t, x, y) && AtOrBelow(t, y, z)
    ensures AtOrBelow(t, x, z)
    decreases x
  {
    if x != y {
      AtOrBelowTransitive(t, t[x].upRef.value, y, z);
    }
  }

  lemma {:induction false} AtOrBelowOrder(t: seq<AttribNode>, x: nat, a: nat)
    requires WellFormed(t) && x < |t| && AtOrBelow(t, x, a)
    ensures a <= x
    decreases x
  {
    if x != a {
      AtOrBelowOrder(t, t[x].upRef.value, a);
    }
  }

  /** The ancestors of a node form one chain: two of them are always one above the other. */
  lemma {:induction false} AncestorsAreChained(t: seq<AttribNode>, x: nat, a: nat, b: nat)
    requires WellFormed(t) && x < |t| && a < |t| && b < |t|
    requires AtOrBelow(t, x, a) && AtOrBelow(t, x, b)
    ensures AtOrBelow(t, a, b) || AtOrBelow(t, b, a)
    decreases x
  {
    if x != a && x != b {
      AncestorsAreChained(t, t[x].upRef.value, a, b);
    }
  }

  /** Every node visited lies strictly below the start node. */
  lemma {:induction false} WalkBelow(t: seq<AttribNode>, n: nat)
    requires WellFormed(t) && n < |t|
    ensures forall x :: x in Walk(t, n) ==> x != n && AtOrBelow(t, x, n)
    decreases |t| - n, 1
  {
    WalkKeysBelow(t, n, SortedKeys(t[n].downRefs.Keys));
  }

  lemma {:induction false} WalkKeysBelow(t: seq<AttribNode>, n: nat, ks: seq<string>)
    requires WellFormed(t) && n < |t|
    requires forall k :: k in ks ==> k in t[n].downRefs
    ensures forall x :: x in WalkKeys(t, n, ks) ==> x != n && AtOrBelow(t, x, n)
    decreases |t| - n, 0, |ks|
  {
    if ks != [] {
      var c := t[n].downRefs[ks[0]];
      assert AtOrBelow(t, c, n);
      WalkBelow(t, c);
      forall x | x in Walk(t, c) ensures AtOrBelow(t, x, n) {
        AtOrBelowTransitive(t, x, c, n);
      }
      WalkKeysBelow(t, n, ks[1..]);
    }
  }

  /** No node is visited twice. */
  lemma {:induction false} WalkNoDuplicates(t: seq<AttribNode>, n: nat)
    requires WellFormed(t) && n < |t|
    ensures NoDuplicates(Walk(t, n))
    decreases |t| - n, 1
  {
    var ks := SortedKeys(t[n].downRefs.Keys);
    SortedKeysDistinct(t[n].downRefs.Keys);
    WalkKeysNoDuplicates(t, n, ks);
  }

  lemma {:induction false} WalkKeysNoDuplicates(t: seq<AttribNode>, n: nat, ks: seq<string>)
    requires WellFormed(t) && n < |t|
    requires forall k :: k in ks ==> k in t[n].downRefs
    requires NoDuplicates(ks)
    ensures NoDuplicates(WalkKeys(t, n, ks))
    decreases |t| - n, 0, |ks|
  {
    if ks != [] {
      var c := t[n].downRefs[ks[0]];
      var sub := Walk(t, c);
      var rest := WalkKeys(t, n, ks[1..]);
      WalkNoDuplicates(t, c);
      WalkBelow(t, c);
      assert NoDuplicates(ks[1..]) by {
        forall i, j | 0 <= i < j < |ks[1..]| ensures ks[1..][i] != ks[1..][j] {
          assert ks[1..][i] == ks[i + 1] && ks[1..][j] == ks[j + 1];
        }
      }
      WalkKeysNoDuplicates(t, n, ks[1..]);
      NoDuplicatesAppend([c], sub);
      // Everything in `rest` sits at or below a sibling of `c`, never at or below `c`.
      forall x | x in [c] + sub ensures x !in rest {
        if x in rest {
          WalkKeysSiblings(t, n, ks[1..], x);
          var k' :| k' in ks[1..] && AtOrBelow(t, x, t[n].downRefs[k']);
          var c' := t[n].downRefs[k'];
          assert AtOrBelow(t, x, c);
          AncestorsAreChained(t, x, c, c');
          assert k' != ks[0];
          if AtOrBelow(t, c, c') {
            assert AtOrBelow(t, n, c');
            AtOrBelowOrder(t, n, c');
          } else {
            assert AtOrBelow(t, n, c);
            AtOrBelowOrder(t, n, c);
          }
        }
      }
      NoDuplicatesAppend([c] + sub, rest);
    }
  }

  /** Each node the walk over keys `ks` visits lies at or below the child under one of them. */
  lemma {:induction false} WalkKeysSiblings(t: seq<AttribNode>, n: nat, ks: seq<string>, x: nat)
    requires WellFormed(t) && n < |t|
    requires forall k :: k in ks ==> k in t[n].downRefs
    requires x in WalkKeys(t, n, ks)
    ensures exists k :: k in ks && AtOrBelow(t, x, t[n].downRefs[k])
    decreases |ks|
  {
    var c := t[n].downRefs[ks[0]];
    if x == c {
      assert AtOrBelow(t, x, c);
    } else if x in Walk(t, c) {
      WalkBelow(t, c);
    } else {
      WalkKeysSiblings(t, n, ks[1..], x);
    }
  }

  /** Below a visited node the walk visits that node's whole walk too. */
  lemma {:induction false} WalkNested(t: seq<AttribNode>, n: nat, y: nat)
    requires WellFormed(t) && n < |t| && y in Walk(t, n)
    ensures forall z :: z in Walk(t, y) ==> z in Walk(t, n)
    decreases |t| - n, 1
  {
    WalkKeysNested(t, n, SortedKeys(t[n].downRefs.Keys), y);
  }

  lemma {:induction false} WalkKeysNested(t: seq<AttribNode>, n: nat, ks: seq<string>, y: nat)
    requires WellFormed(t) && n < |t|
    requires forall k :: k in ks ==> k in t[n].downRefs
    requires y in WalkKeys(t, n, ks)
    ensures forall z :: z in Walk(t, y) ==> z in WalkKeys(t, n, ks)
    decreases |t| - n, 0, |ks|
  {
    var c := t[n].downRefs[ks[0]];
    if y == c {
    } else if y in Walk(t, c) {
      WalkNested(t, c, y);
    } else {
      WalkKeysNested(t, n, ks[1..], y);
    }
  }

  lemma {:induction false} WalkKeysHasChild(t: seq<AttribNode>, n: nat, ks: seq<string>, k: string)
    requires WellFormed(t) && n < |t|
    requires forall k :: k in ks ==> k in t[n].downRefs
    requires k in ks
    ensures t[n].downRefs[k] in WalkKeys(t, n, ks)
    decreases |ks|
  {
    if ks[0] != k {
      WalkKeysHasChild(t, n, ks[1..], k);
    }
  }

  /** When every node is linked into its parent, the walk from `n` visits every node strictly
      below `n`. */
  lemma {:induction false} WalkComplete(t: seq<AttribNode>, n: nat, x: nat)
    requires WellFormed(t) && Registered(t) && n < |t| && x < |t|
    requires x != n && AtOrBelow(t, x, n)
    ensures x in Walk(t, n)
    decreases x
  {
    var p := t[x].upRef.value;
    if p == n {
      WalkKeysHasChild(t, n, SortedKeys(t[n].downRefs.Keys), t[x].name);
    } else {
      WalkComplete(t, n, p);
      WalkKeysHasChild(t, p, SortedKeys(t[p].downRefs.Keys), t[x].name);
      WalkNested(t, n, p);
    }
  }

  /** The visitor is called exactly once for each node below `start` (when all nodes are linked
      into their parents), never for `start` itself, and for nothing else. */
  lemma WalkVisitsSubtreeOnce(t: seq<AttribNode>, start: nat)
    requires WellFormed(t) && Registered(t) && start < |t|
    ensures NoDuplicates(Walk(t, start))
    ensures forall x :: 0 <= x < |t| ==> (x in Walk(t, start) <==> x != start && AtOrBelow(t, x, start))
  {
    WalkNoDuplicates(t, start);
    WalkBelow(t, start);
    forall x | 0 <= x < |t| && x != start && AtOrBelow(t, x, start) ensures x in Walk(t, start) {
      WalkComplete(t, start, x);
    }
  }

  /** A child comes after its parent in the arena. */
  lemma ChildAfter(t: seq<AttribNode>, n: nat, k: string)
    requires WellFormed(t) && n < |t| && k in t[n].downRefs
    ensures n < t[n].downRefs[k] < |t|
  {
  }

  lemma WalkKeysStep(t: seq<AttribNode>, n: nat, ks: seq<string>, i: nat, before: seq<nat>)
    requires WellFormed(t) && n < |t| && i < |ks|
    requires forall k :: k in ks ==> k in t[n].downRefs
    ensures before + WalkKeys(t, n, ks[i..]) ==
            (before + ([t[n].downRefs[ks[i]]] + Walk(t, t[n].downRefs[ks[i]]))) + WalkKeys(t, n, ks[i + 1..])
  {
    assert ks[i..][1..] == ks[i + 1..];
  }

  /** `each_walker(start, proc)`: the recursive visitor, answering the nodes handed to `proc`
      in the order of the calls. */
  method EachWalker(t: seq<AttribNode>, start: nat) returns (visited: seq<nat>)
    requires WellFormed(t) && start < |t|
    ensures visited == Walk(t, start)
  {
    visited := Visit(t, start, start);
  }

  /** The `visit` lambda: hand `node` to the visitor unless it is `start`, then visit the
      children in ascending key order. */
  method Visit(t: seq<AttribNode>, start: nat, node: nat) returns (visited: seq<nat>)
    requires WellFormed(t) && start <= node < |t|
    ensures visited == (if node != start then [node] else []) + Walk(t, node)
    decreases |t| - node
  {
    visited := if node != start then [node] else [];
    ghost var head := visited;
    var keys := SortedKeys(t[node].downRefs.Keys);
    var i := 0;
    assert keys[i..] == keys;
    while i < |keys|
      invariant 0 <= i <= |keys|
      invariant visited + WalkKeys(t, node, keys[i..]) == head + Walk(t, node)
    {
      var child := t[node].downRefs[keys[i]];
      ChildAfter(t, node, keys[i]);
      var sub := Visit(t, start, child);
      assert sub == [child] + Walk(t, child);
      WalkKeysStep(t, node, keys, i, visited);
      assert visited + WalkKeys(t, node, keys[i..]) == (visited + sub) + WalkKeys(t, node, keys[i + 1..]);
      visited := visited + sub;
      i := i + 1;
    }
  }
}

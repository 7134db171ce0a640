/** The hylite record (`Hylite` of lib/rb/esus/hylib.rb) and the parts of it that read the
    attribute tree: `add_attribute`, `anonymous?` and the name `name_str` settles on. */
module Entity {
  import opened Strings
  import opened Trie

  /** One place a hylite is written: file name and line number. */
  datatype Location = Location(file: string, line: nat)

  /** A hylite: the tree nodes it cites (its name node among them), the text sections of all
      its writings, their locations, and the cached result of `name_str` (`@name_str`). */
  datatype Hylite = Hylite(attributes: seq<nat>, texts: seq<string>, locations: seq<Location>, nameCache: Option<string>)

  /** `Hylite.new`. */
  function NewHylite(): Hylite
  {
    Hylite([], [], [], None)
  }

  /** `hy.add_attribute(attrib)`: cite `a`, unless it is cited already. */
  function AddAttribute(h: Hylite, a: nat): (r: Hylite)
    ensures forall x :: x in r.attributes <==> x in h.attributes || x == a
    ensures IsPrefixOf(h.attributes, r.attributes) && |r.attributes| <= |h.attributes| + 1
    ensures NoDuplicates(h.attributes) ==> NoDuplicates(r.attributes)
    ensures r.texts == h.texts && r.locations == h.locations && r.nameCache == h.nameCache
  {
    if a in h.attributes then h else h.(attributes := h.attributes + [a])
  }

  /** `attributes` may be cited in tree `t`. */
  predicate CitesNodesOf(t: seq<AttribNode>, attributes: seq<nat>)
  {
    forall i :: 0 <= i < |attributes| ==> attributes[i] < |t|
  }

  /** The loop of `anonymous?` for one attribute: somewhere on the way from `n` up to the root
      (the root itself not included) there is a node called `_Name` whose parent is called
      `_Root`. Only names are compared. */
  predicate ChainHasName(t: seq<AttribNode>, n: nat)
    requires WellFormed(t) && n < |t|
    decreases n
  {
    t[n].upRef.Some? &&
    ((t[n].name == "_Name" && t[t[n].upRef.value].name == "_Root") || ChainHasName(t, t[n].upRef.value))
  }

  /** `hy.anonymous?`: no attribute passes the test above. */
  predicate Anonymous(t: seq<AttribNode>, h: Hylite)
    requires WellFormed(t) && CitesNodesOf(t, h.attributes)
  {
    forall i :: 0 <= i < |h.attributes| ==> !ChainHasName(t, h.attributes[i])
  }

  /** A path (`to_a`) that starts `_Root`, `_Name`: the path of a name node. */
  predicate IsNamePath(p: seq<string>)
  {
    |p| >= 2 && p[0] == "_Root" && p[1] == "_Name"
  }

  /** The name `name_str` finds among `attributes`: the last attribute whose path starts `_Root`,
      `_Name` gives the rest of its path joined with `-`; none gives nil. */
  function LastName(t: seq<AttribNode>, attributes: seq<nat>): Option<string>
    requires WellFormed(t) && CitesNodesOf(t, attributes)
    decreases |attributes|
  {
    if attributes == [] then None
    else
      var last := |attributes| - 1;
      var p := ToA(t, attributes[last]);
      if IsNamePath(p) then Some(Join(p[2..], '-'))
      else LastName(t, attributes[..last])
  }

  /** `name_str` finds no name exactly when no attribute is a name node. */
  lemma {:induction false} LastNameNone(t: seq<AttribNode>, attributes: seq<nat>)
    requires WellFormed(t) && CitesNodesOf(t, attributes)
    ensures LastName(t, attributes).None? <==> forall i :: 0 <= i < |attributes| ==> !IsNamePath(ToA(t, attributes[i]))
    decreases |attributes|
  {
    if attributes != [] {
      var last := |attributes| - 1;
      var init := attributes[..last];
      if !IsNamePath(ToA(t, attributes[last])) {
        LastNameNone(t, init);
        assert forall i :: 0 <= i < last ==> init[i] == attributes[i];
      }
    }
  }

  /** When attribute `i` is the last name node among the attributes, `name_str` finds its name. */
  lemma {:induction false} LastNameIsLast(t: seq<AttribNode>, attributes: seq<nat>, i: nat)
    requires WellFormed(t) && CitesNodesOf(t, attributes) && i < |attributes|
    requires IsNamePath(ToA(t, attributes[i]))
    requires forall j :: i < j < |attributes| ==> !IsNamePath(ToA(t, attributes[j]))
    ensures LastName(t, attributes) == Some(Join(ToA(t, attributes[i])[2..], '-'))
    decreases |attributes|
  {
    var last := |attributes| - 1;
    if i < last {
      var init := attributes[..last];
      assert forall j :: 0 <= j < last ==> init[j] == attributes[j];
      LastNameIsLast(t, init, i);
    }
  }

  /** The name handed to a hylite without a name: `"_Anon-%d" % [n]`. */
  function AnonName(n: nat): string
  {
    "_Anon-" + Decimal(n)
  }

  /** Anonymous hylites are told apart by their counter value. */
  lemma AnonNamesDistinct(a: nat, b: nat)
    requires a != b
    ensures AnonName(a) != AnonName(b)
  {
    DecimalInjective(a, b);
    assert AnonName(a)[6..] == Decimal(a) && AnonName(b)[6..] == Decimal(b);
  }

  /** No node but the root is called `_Root`: the reserved name is not used in any annotation. */
  predicate RootNameReserved(t: seq<AttribNode>)
  {
    forall i :: 0 < i < |t| ==> t[i].name != "_Root"
  }

  /** A node whose path starts `_Root`, `_Name` passes the test of `anonymous?`. */
  lemma {:induction false} NamePathHasName(t: seq<AttribNode>, n: nat)
    requires WellFormed(t) && n < |t| && t[0].name == "_Root"
    requires IsNamePath(ToA(t, n))
    ensures ChainHasName(t, n)
    decreases n
  {
    var p := t[n].upRef.value;
    if p != 0 {
      assert ToA(t, p) == ToA(t, t[p].upRef.value) + [t[p].name];
      assert ToA(t, n) == ToA(t, p) + [t[n].name];
      assert ToA(t, p)[1] == ToA(t, n)[1];
      NamePathHasName(t, p);
    } else {
      assert ToA(t, n) == [t[0].name, t[n].name];
    }
  }

  /** With `_Root` used only for the root, passing the test of `anonymous?` means having a path
      that starts `_Root`, `_Name`. */
  lemma {:induction false} HasNameGivesNamePath(t: seq<AttribNode>, n: nat)
    requires WellFormed(t) && n < |t| && t[0].name == "_Root" && RootNameReserved(t)
    requires ChainHasName(t, n)
    ensures IsNamePath(ToA(t, n))
    decreases n
  {
    var p := t[n].upRef.value;
    if t[n].name == "_Name" && t[p].name == "_Root" {
      assert p == 0;
    } else {
      HasNameGivesNamePath(t, p);
    }
  }

  /** A hylite for which `name_str` finds a name is never `anonymous?`; when no annotation
      uses the reserved `_Root`, the converse holds too. */
  lemma AnonymousIffNoName(t: seq<AttribNode>, h: Hylite)
    requires WellFormed(t) && CitesNodesOf(t, h.attributes) && t[0].name == "_Root"
    ensures LastName(t, h.attributes).Some? ==> !Anonymous(t, h)
    ensures RootNameReserved(t) ==> (Anonymous(t, h) <==> LastName(t, h.attributes).None?)
  {
    LastNameNone(t, h.attributes);
    if LastName(t, h.attributes).Some? {
      var i :| 0 <= i < |h.attributes| && IsNamePath(ToA(t, h.attributes[i]));
      NamePathHasName(t, h.attributes[i]);
    }
    if RootNameReserved(t) && !Anonymous(t, h) {
      var i :| 0 <= i < |h.attributes| && ChainHasName(t, h.attributes[i]);
      HasNameGivesNamePath(t, h.attributes[i]);
    }
  }
}

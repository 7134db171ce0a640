/** The pieces of Ruby's core string library that the hylite code relies on, over `string`.
    Ruby indexes a UTF-8 string by character, as a Dafny `string` is indexed, so positions and
    lengths agree with the Ruby program's. */
module Strings {

  datatype Option<+T> = None | Some(value: T)

  /** `pat` occurs in `s` starting at position `i`. */
  predicate OccursAt(s: string, pat: string, i: nat)
  {
    i + |pat| <= |s| && s[i..i + |pat|] == pat
  }

  predicate IsPrefix(p: string, s: string)
  {
    |p| <= |s| && s[..|p|] == p
  }

  /** `s.index(pat, from)`: the first occurrence of `pat` at or after `from`. */
  function IndexFrom(s: string, pat: string, from: nat): (r: Option<nat>)
    decreases |s| - from
    ensures r.Some? ==> from <= r.value && OccursAt(s, pat, r.value)
    ensures forall j :: from <= j && (r.None? || j < r.value) ==> !OccursAt(s, pat, j)
  {
    if from + |pat| > |s| then None
    else if s[from..from + |pat|] == pat then Some(from)
    else IndexFrom(s, pat, from + 1)
  }

  /** `s.index(pat)`: the first position at which `pat` occurs, or nil. */
  function IndexOf(s: string, pat: string): (r: Option<nat>)
    ensures r.Some? ==> OccursAt(s, pat, r.value)
    ensures r.Some? ==> forall j :: 0 <= j < r.value ==> !OccursAt(s, pat, j)
    ensures r.None? ==> forall j :: 0 <= j ==> !OccursAt(s, pat, j)
  {
    IndexFrom(s, pat, 0)
  }

  /** A pattern the string starts with is found at position 0. */
  lemma IndexOfAtStart(s: string, pat: string)
    requires IsPrefix(pat, s)
    ensures IndexOf(s, pat) == Some(0)
  {
    assert OccursAt(s, pat, 0);
  }

  /** `xs.join(sep)`. */
  function Join(xs: seq<string>, sep: char): string
  {
    if |xs| == 0 then ""
    else if |xs| == 1 then xs[0]
    else xs[0] + [sep] + Join(xs[1..], sep)
  }

  /** The pieces `s.each_line(sep)` yields, each with `chomp(sep)` applied: `s` cut after every
      `sep`, the separator dropped; a trailing `sep` gives no empty last piece and `""` gives none. */
  function Segments(s: string, sep: char): (r: seq<string>)
    decreases |s|
    ensures forall k :: 0 <= k < |r| ==> sep !in r[k]
    ensures r == [] <==> s == []
  {
    if s == [] then []
    else match IndexOf(s, [sep])
      case None =>
        assert forall j :: 0 <= j < |s| ==> s[j..j + 1] == [s[j]] && !OccursAt(s, [sep], j);
        [s]
      case Some(i) =>
        assert forall j :: 0 <= j < i ==> s[j..j + 1] == [s[j]] && !OccursAt(s, [sep], j);
        [s[..i]] + Segments(s[i + 1..], sep)
  }

  /** Joining the segments again with the separator gives the path back, less a trailing
      separator. */
  lemma {:induction false} SegmentsRoundTrip(s: string, sep: char)
    ensures Join(Segments(s, sep), sep) + (if s != [] && s[|s| - 1] == sep then [sep] else []) == s
    decreases |s|
  {
    if s != [] {
      match IndexOf(s, [sep])
      case None =>
        SegmentsWhole(s, sep);
        assert Join([s], sep) == s;
        assert s + [] == s;
      case Some(i) =>
        var tail := s[i + 1..];
        SegmentsCut(s, sep, i);
        if tail == [] {
          assert Segments(s, sep) == [s[..i]];
          assert Join([s[..i]], sep) == s[..i];
          assert s[..i] + [sep] == s;
        } else {
          var rest := Segments(tail, sep);
          var last := if tail[|tail| - 1] == sep then [sep] else [];
          SegmentsRoundTrip(tail, sep);
          JoinCons(s[..i], rest, sep);
          assert s[|s| - 1] == tail[|tail| - 1];
          AppendAssociative(s[..i] + [sep], Join(rest, sep), last);
        }
    }
  }

  lemma ConsParts<T>(x: T, s: seq<T>)
    ensures ([x] + s)[0] == x && ([x] + s)[1..] == s
  {
  }

  lemma AppendAssociative<T>(a: seq<T>, b: seq<T>, c: seq<T>)
    ensures (a + b) + c == a + (b + c)
  {
  }

  /** Without a separator, `s` is its only piece. */
  lemma SegmentsWhole(s: string, sep: char)
    requires s != [] && IndexOf(s, [sep]) == None
    ensures Segments(s, sep) == [s] && s[|s| - 1] != sep
  {
    assert !OccursAt(s, [sep], |s| - 1) && s[|s| - 1..] == [s[|s| - 1]];
  }

  /** Where the first separator is, `s` is cut into the piece before it and the rest. */
  lemma SegmentsCut(s: string, sep: char, i: nat)
    requires s != [] && IndexOf(s, [sep]) == Some(i)
    ensures i < |s| && s == s[..i] + [sep] + s[i + 1..]
    ensures Segments(s, sep) == [s[..i]] + Segments(s[i + 1..], sep)
  {
    assert s[i..i + 1] == [sep];
  }

  lemma JoinCons(x: string, rest: seq<string>, sep: char)
    requires rest != []
    ensures Join([x] + rest, sep) == x + [sep] + Join(rest, sep)
  {
    assert ([x] + rest)[1..] == rest;
  }

  /** `s.split(c)` with every empty field kept (Ruby then drops trailing empty fields; see
      `Parsing.Sections` for why that makes no difference to its callers). */
  function SplitAll(s: string, c: char): (r: seq<string>)
    decreases |s|
    ensures |r| >= 1
    ensures forall k :: 0 <= k < |r| ==> c !in r[k]
    ensures Join(r, c) == s
  {
    match IndexOf(s, [c])
    case None =>
      assert forall j :: 0 <= j < |s| ==> s[j..j + 1] == [s[j]] && !OccursAt(s, [c], j);
      [s]
    case Some(i) =>
      assert s[i..i + 1] == [c];
      assert forall j :: 0 <= j < i ==> s[j..j + 1] == [s[j]] && !OccursAt(s, [c], j);
      assert s == s[..i] + [c] + s[i + 1..];
      [s[..i]] + SplitAll(s[i + 1..], c)
  }

  /** The characters Ruby's `String#strip` removes: space, tab, line feed, vertical tab,
      form feed, carriage return and NUL. */
  predicate IsStripSpace(c: char)
  {
    c == ' ' || c == '\t' || c == '\n' || c == '\U{B}' || c == '\U{C}' || c == '\r' || c == '\0'
  }

  /** The regular-expression class `\s` of Ruby 2.2 and later: space, tab, line feed, vertical
      tab, form feed, carriage return. */
  predicate IsRegexSpace(c: char)
  {
    c == ' ' || c == '\t' || c == '\n' || c == '\U{B}' || c == '\U{C}' || c == '\r'
  }

  /** The regular-expression class `\w` of Ruby, which is ASCII only: `[a-zA-Z0-9_]`. */
  predicate IsWordChar(c: char)
  {
    ('a' <= c <= 'z') || ('A' <= c <= 'Z') || ('0' <= c <= '9') || c == '_'
  }

  /** The class `\s` as Ruby 1.8 has it: space, tab, line feed, form feed, carriage return, and
      no vertical tab. */
  predicate IsOldRegexSpace(c: char)
  {
    c == ' ' || c == '\t' || c == '\n' || c == '\U{C}' || c == '\r'
  }

  /** The class `\w` of Ruby 1.8 under `$KCODE = 'u'`: the ASCII word characters and every
      character outside ASCII, which that regular-expression engine counts as a word character. */
  predicate IsOldWordChar(c: char)
  {
    IsWordChar(c) || c > '\U{7F}'
  }

  /** The first position at or after `i` that holds no white space (`|s|` when there is none). */
  function SpaceEnd(s: string, i: nat): (k: nat)
    requires i <= |s|
    ensures i <= k <= |s|
    ensures forall j :: i <= j < k ==> IsStripSpace(s[j])
    ensures k < |s| ==> !IsStripSpace(s[k])
    decreases |s| - i
  {
    if i < |s| && IsStripSpace(s[i]) then SpaceEnd(s, i + 1) else i
  }

  /** The position after the last character before `k` that is no white space (`0` when there
      is none). */
  function SpaceStart(s: string, k: nat): (i: nat)
    requires k <= |s|
    ensures i <= k
    ensures forall j :: i <= j < k ==> IsStripSpace(s[j])
    ensures i > 0 ==> !IsStripSpace(s[i - 1])
  {
    if k > 0 && IsStripSpace(s[k - 1]) then SpaceStart(s, k - 1) else k
  }

  /** `s.strip`: `s` without its leading and trailing white space. */
  function Strip(s: string): (r: string)
    ensures |r| <= |s|
    ensures r != [] ==> !IsStripSpace(r[0]) && !IsStripSpace(r[|r| - 1])
    ensures r == [] <==> forall i :: 0 <= i < |s| ==> IsStripSpace(s[i])
  {
    var i := SpaceEnd(s, 0);
    if i == |s| then [] else s[i..SpaceStart(s, |s|)]
  }

  /** Ruby's string order `<=>`, as used by `Array#sort` on the keys of a child map: character
      by character, a proper prefix first. (The UTF-8 byte order Ruby compares is the code
      point order.) */
  predicate Below(a: string, b: string)
    decreases |a|
  {
    |b| > 0 && (|a| == 0 || a[0] < b[0] || (a[0] == b[0] && Below(a[1..], b[1..])))
  }

  lemma {:induction false} BelowIrreflexive(a: string)
    ensures !Below(a, a)
    decreases |a|
  {
    if |a| > 0 {
      BelowIrreflexive(a[1..]);
    }
  }

  lemma {:induction false} BelowAsymmetric(a: string, b: string)
    ensures !(Below(a, b) && Below(b, a))
    decreases |a|
  {
    if |a| > 0 && |b| > 0 && a[0] == b[0] {
      BelowAsymmetric(a[1..], b[1..]);
    }
  }

  lemma {:induction false} BelowTotal(a: string, b: string)
    requires a != b
    ensures Below(a, b) || Below(b, a)
    decreases |a|
  {
    if |a| > 0 && |b| > 0 && a[0] == b[0] {
      assert a == [a[0]] + a[1..] && b == [b[0]] + b[1..];
      BelowTotal(a[1..], b[1..]);
    }
  }

  predicate IsLeast(m: string, ks: set<string>)
  {
    m in ks && forall k :: k in ks && k != m ==> Below(m, k)
  }

  /** Every non-empty finite set of strings has a least element. */
  lemma {:induction false} HasLeast(ks: set<string>)
    requires ks != {}
    ensures exists m :: IsLeast(m, ks)
    decreases |ks|
  {
    var x :| x in ks;
    var rest := ks - {x};
    if rest == {} {
      assert forall k :: k in ks ==> k in rest || k == x;
      assert IsLeast(x, ks);
    } else {
      HasLeast(rest);
      var m :| IsLeast(m, rest);
      if Below(m, x) {
        assert IsLeast(m, ks);
      } else {
        BelowTotal(m, x);
        forall k | k in ks && k != x ensures Below(x, k) {
          if k != m {
            BelowTransitive(x, m, k);
          }
        }
        assert IsLeast(x, ks);
      }
    }
  }

  lemma {:induction false} BelowTransitive(a: string, b: string, c: string)
    requires Below(a, b) && Below(b, c)
    ensures Below(a, c)
    decreases |a|
  {
    if |a| > 0 && a[0] == b[0] && b[0] == c[0] {
      BelowTransitive(a[1..], b[1..], c[1..]);
    }
  }

  lemma LeastUnique(ks: set<string>)
    ensures forall a, b :: IsLeast(a, ks) && IsLeast(b, ks) ==> a == b
  {
    forall a, b | IsLeast(a, ks) && IsLeast(b, ks) ensures a == b {
      BelowAsymmetric(a, b);
    }
  }

  /** The least of a non-empty set of strings. */
  function Least(ks: set<string>): (m: string)
    requires ks != {}
    ensures IsLeast(m, ks)
  {
    HasLeast(ks);
    LeastUnique(ks);
    var m :| IsLeast(m, ks);
    m
  }

  /** `keys.sort`: the keys in ascending order, each once. */
  function SortedKeys(ks: set<string>): (r: seq<string>)
    decreases |ks|
    ensures |r| == |ks|
    ensures forall k :: k in ks <==> k in r
  {
    if ks == {} then []
    else
      var m := Least(ks);
      var rest := SortedKeys(ks - {m});
      assert forall k :: k in rest ==> k in ks && k != m;
      [m] + rest
  }

  /** `keys.sort` lists the keys in strictly ascending order. */
  lemma {:induction false} SortedKeysOrdered(ks: set<string>)
    ensures forall i, j :: 0 <= i < j < |SortedKeys(ks)| ==> Below(SortedKeys(ks)[i], SortedKeys(ks)[j])
    decreases |ks|
  {
    if ks != {} {
      var m := Least(ks);
      var rest := SortedKeys(ks - {m});
      SortedKeysOrdered(ks - {m});
      var r := SortedKeys(ks);
      assert r == [m] + rest;
      forall i, j | 0 <= i < j < |r| ensures Below(r[i], r[j]) {
        assert r[j] == rest[j - 1];
        if i == 0 {
          assert rest[j - 1] in ks - {m};
        } else {
          assert r[i] == rest[i - 1];
        }
      }
    }
  }

  /** So `keys.sort` lists each key once. */
  lemma SortedKeysDistinct(ks: set<string>)
    ensures NoDuplicates(SortedKeys(ks))
  {
    SortedKeysOrdered(ks);
    var r := SortedKeys(ks);
    forall i, j | 0 <= i < j < |r| ensures r[i] != r[j] {
      BelowIrreflexive(r[i]);
    }
  }

  function DigitChar(d: nat): (c: char)
    requires d < 10
    ensures '0' <= c <= '9' && c as int - '0' as int == d
  {
    (48 + d) as char
  }

  /** `"%d" % [n]` for a natural number. */
  function Decimal(n: nat): (r: string)
    decreases n
    ensures r != [] && forall i :: 0 <= i < |r| ==> '0' <= r[i] <= '9'
  {
    if n < 10 then [DigitChar(n)] else Decimal(n / 10) + [DigitChar(n % 10)]
  }

  /** The number a string of decimal digits denotes. */
  function DecimalValue(s: string): nat
    requires forall i :: 0 <= i < |s| ==> '0' <= s[i] <= '9'
  {
    if s == [] then 0 else DecimalValue(s[..|s| - 1]) * 10 + (s[|s| - 1] as int - '0' as int)
  }

  lemma {:induction false} DecimalRoundTrip(n: nat)
    ensures DecimalValue(Decimal(n)) == n
    decreases n
  {
    if n >= 10 {
      var d := Decimal(n / 10);
      assert (d + [DigitChar(n % 10)])[..|d|] == d;
      DecimalRoundTrip(n / 10);
    }
  }

  /** Different numbers print differently. */
  lemma DecimalInjective(a: nat, b: nat)
    requires a != b
    ensures Decimal(a) != Decimal(b)
  {
    DecimalRoundTrip(a);
    DecimalRoundTrip(b);
  }

  // ---------------------------------------------------------------------------------------------
  // sequences

  predicate IsPrefixOf<T(==)>(a: seq<T>, b: seq<T>)
  {
    |a| <= |b| && b[..|a|] == a
  }

  lemma PrefixTransitive<T>(a: seq<T>, b: seq<T>, c: seq<T>)
    requires IsPrefixOf(a, b) && IsPrefixOf(b, c)
    ensures IsPrefixOf(a, c)
  {
    assert c[..|a|] == c[..|b|][..|a|];
  }

  /** Taking one element more appends that element. */
  lemma TakeOneMore<T>(s: seq<T>, i: nat)
    requires i < |s|
    ensures s[..i + 1] == s[..i] + [s[i]]
  {
  }

  predicate NoDuplicates<T(==)>(s: seq<T>)
  {
    forall i, j :: 0 <= i < j < |s| ==> s[i] != s[j]
  }

  lemma NoDuplicatesAppend<T>(a: seq<T>, b: seq<T>)
    requires NoDuplicates(a) && NoDuplicates(b)
    requires forall x :: x in a ==> x !in b
    ensures NoDuplicates(a + b)
  {
    forall i, j | 0 <= i < j < |a + b| ensures (a + b)[i] != (a + b)[j] {
      if i < |a| && j >= |a| {
        assert (a + b)[i] in a && (a + b)[j] in b;
      }
    }
  }

}

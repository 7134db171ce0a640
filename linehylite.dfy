/** `Scanner#line_hylite` of both variants: the regular-expression match that finds a hylite on
    one line of a file in punt mode. The earlier variant of lib/rb/hylib.rb has only the first
    of the later variant's two patterns. */
module LineHylites {
  import opened Strings
  import opened Parsing

  /** The character class that must follow `hylite`: `\s` (white space), `\s` as Ruby 1.8 has
      it, or `:`. */
  datatype Follow = Space | OldSpace | Colon

  predicate Accepts(next: Follow, c: char)
  {
    match next
    case Space => IsRegexSpace(c)
    case OldSpace => IsOldRegexSpace(c)
    case Colon => c == ':'
  }

  /** `hylite` occurs at `j` and is followed by a character that `next` accepts. */
  predicate TriggerAt(s: string, j: nat, next: Follow)
  {
    j + 7 <= |s| && s[j..j + 6] == "hylite" && Accepts(next, s[j + 6])
  }

  /** The last trigger at or before `k`. */
  function LastTrigger(s: string, k: nat, next: Follow): (r: Option<nat>)
    ensures r.Some? ==> r.value <= k && TriggerAt(s, r.value, next)
    ensures forall j: nat :: j <= k && (r.None? || r.value < j) ==> !TriggerAt(s, j, next)
    decreases k
  {
    if TriggerAt(s, k, next) then Some(k)
    else if k == 0 then None
    else LastTrigger(s, k - 1, next)
  }

  /** The group `$~[1]` of `/.*(hylite<next>.*).*$/ =~ s`, where `<next>` is one character class:
      on the first line of `s` that holds a trigger, the text from its last trigger to the end of
      that line. The greedy `.*` in front picks the last trigger, `.` never crosses a line feed,
      and a line feed taken as the `<next>` character itself does not end the capture. Nil when no
      line holds a trigger. */
  function LineHyliteBy(s: string, next: Follow): (r: Option<string>)
    ensures r.Some? ==> |r.value| >= 7 && r.value[..6] == "hylite" && Accepts(next, r.value[6])
    decreases |s|
  {
    var e := SkipWhile(s, 0, IsNotNewline);
    match LastTrigger(s, e, next)
    case Some(j) =>
      var end := SkipWhile(s, j + 7, IsNotNewline);
      assert s[j..end][..6] == s[j..j + 6];
      Some(s[j..end])
    case None =>
      if e < |s| then LineHyliteBy(s[e + 1..], next) else None
  }

  /** `line_hylite(line)` of lib/rb/esus/hylib.rb: the `hylite` followed by white space, and only
      when there is none anywhere, the anonymous form `hylite` followed by colons. */
  function LineHylite(line: string): (r: Option<string>)
    ensures r.Some? ==> |r.value| >= 7 && r.value[..6] == "hylite"
  {
    match LineHyliteBy(line, Space)
    case Some(x) => Some(x)
    case None => LineHyliteBy(line, Colon)
  }

  /** On a line, the capture runs from the last trigger to the end of the line. */
  lemma LineHyliteByLast(pre: string, c: char, post: string, next: Follow)
    requires Accepts(next, c) && '\n' !in pre && '\n' !in post
    requires forall j: nat :: |pre| < j ==> !TriggerAt(pre + "hylite" + [c] + post, j, next)
    ensures LineHyliteBy(pre + "hylite" + [c] + post, next) == Some("hylite" + [c] + post)
  {
    LineShape(pre, c, post);
    LineHyliteAt(pre + "hylite" + [c] + post, |pre|, next);
    CaptureShape(pre, c, post);
  }

  lemma LineShape(pre: string, c: char, post: string)
    requires '\n' !in pre && '\n' !in post
    ensures var s := pre + "hylite" + [c] + post;
      && |s| == |pre| + 7 + |post| && s[|pre|..|pre| + 6] == "hylite" && s[|pre| + 6] == c
      && (forall k :: 0 <= k < |pre| ==> s[k] != '\n')
      && (forall k :: |pre| + 7 <= k < |s| ==> s[k] != '\n')
  {
    var s := pre + "hylite" + [c] + post;
    var p := |pre|;
    assert s[p..p + 6] == "hylite";
    forall k | 0 <= k < p ensures s[k] != '\n' {
      assert s[k] == pre[k];
    }
    forall k | p + 7 <= k < |s| ensures s[k] != '\n' {
      assert s[k] == post[k - p - 7];
    }
  }

  lemma CaptureShape(pre: string, c: char, post: string)
    ensures (pre + "hylite" + [c] + post)[|pre|..] == "hylite" + [c] + post
  {
    var rest := "hylite" + [c] + post;
    assert pre + "hylite" + [c] + post == pre + rest;
  }

  /** The capture of a line whose last trigger is at `p`. */
  lemma LineHyliteAt(s: string, p: nat, next: Follow)
    requires TriggerAt(s, p, next)
    requires forall k :: 0 <= k < p ==> s[k] != '\n'
    requires forall k :: p + 7 <= k < |s| ==> s[k] != '\n'
    requires forall j: nat :: p < j ==> !TriggerAt(s, j, next)
    ensures LineHyliteBy(s, next) == Some(s[p..])
  {
    var e := SkipWhile(s, 0, IsNotNewline);
    assert p <= e;
    assert LastTrigger(s, e, next) == Some(p);
    forall k | p + 7 <= k < |s| ensures IsNotNewline(s[k]) {
    }
    SkipWhileExact(s, p + 7, |s|, IsNotNewline);
    assert s[p..SkipWhile(s, p + 7, IsNotNewline)] == s[p..];
  }

  /** The capture is nil exactly when no line holds a trigger. */
  lemma {:induction false} LineHyliteByNone(s: string, next: Follow)
    ensures LineHyliteBy(s, next).None? <==> forall j: nat :: !TriggerAt(s, j, next)
    decreases |s|, 1
  {
    var e := SkipWhile(s, 0, IsNotNewline);
    if LastTrigger(s, e, next).None? {
      if e < |s| {
        NoneOnLaterLine(s, e, next);
      } else {
        forall j: nat ensures !TriggerAt(s, j, next) {
          if j > e {
            assert j + 7 > |s|;
          }
        }
      }
    }
  }

  /** Without a trigger on the first line, the triggers of `s` are those of the lines after it. */
  lemma {:induction false} NoneOnLaterLine(s: string, e: nat, next: Follow)
    requires e == SkipWhile(s, 0, IsNotNewline) && e < |s| && LastTrigger(s, e, next).None?
    ensures LineHyliteBy(s, next).None? <==> forall j: nat :: !TriggerAt(s, j, next)
    decreases |s|, 0
  {
    var t := s[e + 1..];
    assert LineHyliteBy(s, next) == LineHyliteBy(t, next);
    LineHyliteByNone(t, next);
    TriggerShift(s, e + 1, next);
    if forall j: nat :: !TriggerAt(t, j, next) {
      forall j: nat ensures !TriggerAt(s, j, next) {
        if j > e {
          assert !TriggerAt(t, j - e - 1, next);
        }
      }
    }
  }

  /** The triggers of a suffix are those of the whole string, shifted. */
  lemma TriggerShift(s: string, d: nat, next: Follow)
    requires d <= |s|
    ensures forall j: nat :: TriggerAt(s[d..], j, next) <==> TriggerAt(s, d + j, next)
  {
    forall j: nat ensures TriggerAt(s[d..], j, next) <==> TriggerAt(s, d + j, next) {
      if j + 7 <= |s[d..]| {
        assert s[d..][j..j + 6] == s[d + j..d + j + 6] && s[d..][j + 6] == s[d + j + 6];
      }
    }
  }

  /** Without a white-space trigger anywhere, the anonymous form `hylite:` is taken, to the end
      of the line. */
  lemma LineHyliteAnonymous(pre: string, post: string)
    requires '\n' !in pre && '\n' !in post
    requires forall j: nat :: !TriggerAt(pre + "hylite:" + post, j, Space)
    requires forall j: nat :: |pre| < j ==> !TriggerAt(pre + "hylite:" + post, j, Colon)
    ensures LineHylite(pre + "hylite:" + post) == Some("hylite:" + post)
  {
    var s := pre + "hylite:" + post;
    assert s == pre + "hylite" + [':'] + post;
    LineHyliteByNone(s, Space);
    assert LineHyliteBy(s, Space).None?;
    LineHyliteByLast(pre, ':', post, Colon);
    assert "hylite" + [':'] + post == "hylite:" + post;
  }

  /** A white-space trigger anywhere wins over the anonymous form. */
  lemma LineHyliteSpaceFirst(s: string, j: nat)
    requires TriggerAt(s, j, Space)
    ensures LineHylite(s) == LineHyliteBy(s, Space) && LineHylite(s).Some?
  {
    LineHyliteByNone(s, Space);
  }
}

/** The annotation extractor of `Scanner#next_hylite_part` in lib/rb/esus/hylib.rb, as functions
    on the stream of comment parts: where a writing of a hylite starts (the trigger `hylite`
    followed by `:` or a space), where it ends (the end of its comment part, the end of its
    comment, or the closer matching the character just before the trigger), and how the parts of
    one writing are joined. The class `Scanners.Scanner` is proved to deliver this stream. */
module Extractor {
  import opened Strings
  import opened Lexer

  /** A `HylitePart`: the text of one writing of a hylite and the number of the line it starts
      on. */
  datatype HylitePart = HylitePart(line: nat, text: string)

  /** `@@embedded_delimiters[c]`: the closer of a writing that `c` opens, if `c` is an opener.
      The closer of `【` is the two characters space and `】`. */
  function Closer(c: char): (r: Option<string>)
    ensures r.Some? ==> |r.value| > 0 && r.value[0] !in "hylite"
  {
    match c
    case '(' => Some(")")
    case '[' => Some("]")
    case '{' => Some("}")
    case '<' => Some(">")
    case '«' => Some("»")
    case '“' => Some("”")
    case '‘' => Some("’")
    case '⟨' => Some("⟩")
    case '⌈' => Some("⌉")
    case '⌊' => Some("⌋")
    case '⧼' => Some("⧽")
    case '‹' => Some("›")
    case '【' => Some(" 】")
    case _ => None
  }

  /** The trigger at `p` is accepted: the character after it is `:` or a space. A tab, any other
      character, or the end of the string rejects it. */
  predicate Accepted(s: string, p: nat)
  {
    p + 6 < |s| && (s[p + 6] == ':' || s[p + 6] == ' ')
  }

  /** Every writing of a hylite in the comment parts `ps`, in order. */
  function ExtractAll(lang: Language, ps: seq<CommentPart>): seq<HylitePart>
    decreases |ps|, 0, 0, 0
  {
    if ps == [] then [] else Scan(lang, ps[0].line, ps[0].text, ps[0].terminated, ps[1..])
  }

  /** The writings found in `s`, what is left of the comment part of line `line`, followed by
      those of the parts `rest` after it: one pass of the `while part` loop. A rejected trigger
      is skipped together with the character after it. Without an opener just before the
      trigger, the writing runs to the end of the part when the part ends its comment (or the
      file is `Text`) and into the following parts otherwise; with one, it runs to the closer. */
  function Scan(lang: Language, line: nat, s: string, term: bool, rest: seq<CommentPart>): seq<HylitePart>
    decreases |rest|, 1, |s|, 1
  {
    if s == [] then ExtractAll(lang, rest)
    else
      match IndexOf(s, "hylite")
      case None => ExtractAll(lang, rest)
      case Some(p) =>
        if !Accepted(s, p) then
          if p + 7 >= |s| then ExtractAll(lang, rest) else Scan(lang, line, s[p + 7..], term, rest)
        else
          var g := if p > 0 then Closer(s[p - 1]) else None;
          if g.None? then
            if term || lang == Text then [HylitePart(line, s[p..])] + ExtractAll(lang, rest)
            else Continue(lang, HylitePart(line, s[p..]), rest)
          else
            Grouped(lang, line, s, p, g.value, term, rest)
  }

  /** A writing at `p` opened by a grouping character whose closer is `g`. The closer is searched
      from the start of the part, so a closer before the trigger yields an empty writing; after
      it only one character is skipped before the part is scanned again. Without a closer the
      writing runs to the end of the part if the part ends its comment, and into the following
      parts otherwise. */
  function Grouped(lang: Language, line: nat, s: string, p: nat, g: string, term: bool, rest: seq<CommentPart>): seq<HylitePart>
    requires p <= |s| && |g| > 0
    decreases |rest|, 1, |s|, 0
  {
    match IndexOf(s, g)
    case Some(q) =>
      [HylitePart(line, if q < p then [] else s[p..q])] + Scan(lang, line, s[q + 1..], term, rest)
    case None =>
      if term then [HylitePart(line, s[p..])] + ExtractAll(lang, rest)
      else GroupCont(lang, g, HylitePart(line, s[p..]), rest)
  }

  /** An ungrouped writing in a comment that goes on: each following part is appended after a
      space, up to and including the first part that ends its comment, or the end of the file. */
  function Continue(lang: Language, hp: HylitePart, rest: seq<CommentPart>): seq<HylitePart>
    decreases |rest|, 0, 0, 0
  {
    if rest == [] then [hp]
    else
      var hp2 := HylitePart(hp.line, hp.text + " " + rest[0].text);
      if rest[0].terminated then [hp2] + ExtractAll(lang, rest[1..]) else Continue(lang, hp2, rest[1..])
  }

  /** A grouped writing still open at the end of its part: following parts are appended after a
      space until one holds the closer `g` (the text before it is appended and the rest of that
      part is scanned again), one ends its comment, or the file ends. */
  function GroupCont(lang: Language, g: string, hp: HylitePart, rest: seq<CommentPart>): seq<HylitePart>
    requires |g| > 0
    decreases |rest|, 0, 0, 0
  {
    if rest == [] then [hp]
    else
      var c := rest[0];
      match IndexOf(c.text, g)
      case Some(q) =>
        [HylitePart(hp.line, hp.text + " " + c.text[..q])] + Scan(lang, c.line, c.text[q + 1..], c.terminated, rest[1..])
      case None =>
        var hp2 := HylitePart(hp.line, hp.text + " " + c.text);
        if c.terminated then [hp2] + ExtractAll(lang, rest[1..]) else GroupCont(lang, g, hp2, rest[1..])
  }

  // ---------------------------------------------------------------------------------------------
  // the character before the trigger

  /** `/(.)hylite/ =~ s` searching from `j`: the character of the leftmost match, which must not
      be a line feed. */
  function RecaptureFrom(s: string, j: nat): (r: Option<char>)
    decreases |s| - j
  {
    if j + 7 > |s| then None
    else if s[j] != '\n' && s[j + 1..j + 7] == "hylite" then Some(s[j])
    else RecaptureFrom(s, j + 1)
  }

  /** On a piece of one line, the regular expression recaptures exactly the character before the
      first trigger, which is what `Scan` uses. */
  lemma RecaptureIsLeftNeighbour(s: string, p: nat)
    requires OneLine(s) && IndexOf(s, "hylite") == Some(p) && p > 0
    ensures RecaptureFrom(s, 0) == Some(s[p - 1])
  {
    RecaptureSkips(s, 0, p - 1);
    assert s[p..p + 6] == "hylite";
  }

  lemma {:induction false} RecaptureSkips(s: string, j: nat, m: nat)
    requires j <= m && m + 7 <= |s|
    requires forall i :: j < i <= m ==> !OccursAt(s, "hylite", i)
    ensures RecaptureFrom(s, j) == RecaptureFrom(s, m)
    decreases m - j
  {
    if j < m {
      assert s[j + 1..j + 7] != "hylite" by {
        assert !OccursAt(s, "hylite", j + 1);
      }
      RecaptureSkips(s, j + 1, m);
    }
  }

  // ---------------------------------------------------------------------------------------------
  // every writing starts with the trigger

  /** Each writing is empty (a closer found before its trigger) or starts with `hylite`. */
  predicate Triggered(hps: seq<HylitePart>)
  {
    forall i :: 0 <= i < |hps| ==> hps[i].text == [] || IsPrefix("hylite", hps[i].text)
  }

  lemma TriggeredCons(hp: HylitePart, tail: seq<HylitePart>)
    requires hp.text == [] || IsPrefix("hylite", hp.text)
    requires Triggered(tail)
    ensures Triggered([hp] + tail)
  {
  }

  lemma TriggerExtends(x: string, y: string)
    requires IsPrefix("hylite", x)
    ensures IsPrefix("hylite", x + y)
  {
    assert (x + y)[..6] == x[..6];
  }

  /** Every writing the extractor yields is empty or starts with the trigger `hylite`; so every
      non-empty one holds a character other than `:`. */
  lemma {:induction false} ExtractAllTriggered(lang: Language, ps: seq<CommentPart>)
    ensures Triggered(ExtractAll(lang, ps))
    decreases |ps|, 0, 0, 0
  {
    if ps != [] {
      ScanTriggered(lang, ps[0].line, ps[0].text, ps[0].terminated, ps[1..]);
    }
  }

  lemma {:induction false} ScanTriggered(lang: Language, line: nat, s: string, term: bool, rest: seq<CommentPart>)
    ensures Triggered(Scan(lang, line, s, term, rest))
    decreases |rest|, 1, |s|, 2
  {
    ExtractAllTriggered(lang, rest);
    if s != [] && IndexOf(s, "hylite").Some? {
      var p := IndexOf(s, "hylite").value;
      assert s[p..][..6] == s[p..p + 6];
      if !Accepted(s, p) {
        if p + 7 < |s| {
          ScanTriggered(lang, line, s[p + 7..], term, rest);
        }
      } else {
        var g := if p > 0 then Closer(s[p - 1]) else None;
        if g.None? {
          if term || lang == Text {
            TriggeredCons(HylitePart(line, s[p..]), ExtractAll(lang, rest));
          } else {
            ContinueTriggered(lang, HylitePart(line, s[p..]), rest);
          }
        } else {
          GroupedTriggered(lang, line, s, p, g.value, term, rest);
        }
      }
    }
  }

  lemma {:induction false} GroupedTriggered(lang: Language, line: nat, s: string, p: nat, g: string, term: bool, rest: seq<CommentPart>)
    requires OccursAt(s, "hylite", p) && |g| > 0 && g[0] !in "hylite"
    ensures Triggered(Grouped(lang, line, s, p, g, term, rest))
    decreases |rest|, 1, |s|, 1
  {
    var q := IndexOf(s, g);
    if q.Some? {
      GroupClosedTriggered(lang, line, s, p, g, term, rest, q.value);
    } else {
      GroupOpenTriggered(lang, line, s, p, g, term, rest);
    }
  }

  /** A grouped writing with no closer in its own part. */
  lemma {:induction false} GroupOpenTriggered(lang: Language, line: nat, s: string, p: nat, g: string, term: bool, rest: seq<CommentPart>)
    requires OccursAt(s, "hylite", p) && |g| > 0 && IndexOf(s, g).None?
    ensures Triggered(Grouped(lang, line, s, p, g, term, rest))
    decreases |rest|, 1, |s|, 0
  {
    GroupedStep(lang, line, s, p, g, term, rest);
    WritingTriggered(s, p);
    if term {
      ExtractAllTriggered(lang, rest);
      TriggeredCons(HylitePart(line, s[p..]), ExtractAll(lang, rest));
    } else {
      GroupContTriggered(lang, g, HylitePart(line, s[p..]), rest);
    }
  }

  /** A grouped writing closed at `q` in its own part. */
  lemma {:induction false} GroupClosedTriggered(lang: Language, line: nat, s: string, p: nat, g: string, term: bool,
                                                rest: seq<CommentPart>, q: nat)
    requires OccursAt(s, "hylite", p) && |g| > 0 && g[0] !in "hylite" && IndexOf(s, g) == Some(q)
    ensures Triggered(Grouped(lang, line, s, p, g, term, rest))
    decreases |rest|, 1, |s|, 0
  {
    GroupedStep(lang, line, s, p, g, term, rest);
    ScanTriggered(lang, line, s[q + 1..], term, rest);
    if q >= p {
      assert s[q] == g[0];
      assert s[p..q][..6] == s[p..p + 6];
    }
    TriggeredCons(HylitePart(line, if q < p then [] else s[p..q]), Scan(lang, line, s[q + 1..], term, rest));
  }

  lemma WritingTriggered(s: string, p: nat)
    requires OccursAt(s, "hylite", p)
    ensures IsPrefix("hylite", s[p..])
  {
    assert s[p..][..6] == s[p..p + 6];
  }

  lemma {:induction false} ContinueTriggered(lang: Language, hp: HylitePart, rest: seq<CommentPart>)
    requires IsPrefix("hylite", hp.text)
    ensures Triggered(Continue(lang, hp, rest))
    decreases |rest|, 0, 0, 0
  {
    if rest != [] {
      var hp2 := HylitePart(hp.line, hp.text + " " + rest[0].text);
      TriggerExtends(hp.text, " " + rest[0].text);
      assert hp.text + " " + rest[0].text == hp.text + (" " + rest[0].text);
      if rest[0].terminated {
        ExtractAllTriggered(lang, rest[1..]);
        TriggeredCons(hp2, ExtractAll(lang, rest[1..]));
      } else {
        ContinueTriggered(lang, hp2, rest[1..]);
      }
    }
  }

  lemma {:induction false} GroupContTriggered(lang: Language, g: string, hp: HylitePart, rest: seq<CommentPart>)
    requires |g| > 0 && IsPrefix("hylite", hp.text)
    ensures Triggered(GroupCont(lang, g, hp, rest))
    decreases |rest|, 0, 0, 0
  {
    if rest != [] {
      var c := rest[0];
      match IndexOf(c.text, g)
      case Some(q) =>
        TriggerExtends(hp.text, " " + c.text[..q]);
        assert hp.text + " " + c.text[..q] == hp.text + (" " + c.text[..q]);
        ScanTriggered(lang, c.line, c.text[q + 1..], c.terminated, rest[1..]);
        TriggeredCons(HylitePart(hp.line, hp.text + " " + c.text[..q]), Scan(lang, c.line, c.text[q + 1..], c.terminated, rest[1..]));
      case None =>
        var hp2 := HylitePart(hp.line, hp.text + " " + c.text);
        TriggerExtends(hp.text, " " + c.text);
        assert hp.text + " " + c.text == hp.text + (" " + c.text);
        if c.terminated {
          ExtractAllTriggered(lang, rest[1..]);
          TriggeredCons(hp2, ExtractAll(lang, rest[1..]));
        } else {
          GroupContTriggered(lang, g, hp2, rest[1..]);
        }
    }
  }

  // ---------------------------------------------------------------------------------------------
  // how a writing is delimited

  /** A trigger followed by anything but `:` or a space is skipped, and so is the character after
      it; the scan goes on after that character. */
  lemma RejectedTriggerSkipped(lang: Language, line: nat, pre: string, c: char, post: string, term: bool, rest: seq<CommentPart>)
    requires c != ':' && c != ' '
    requires forall j :: 0 <= j < |pre| ==> !OccursAt(pre + "hylite" + [c] + post, "hylite", j)
    ensures Scan(lang, line, pre + "hylite" + [c] + post, term, rest) == Scan(lang, line, post, term, rest)
  {
    var s := pre + "hylite" + [c] + post;
    assert s[|pre|..|pre| + 6] == "hylite";
    IndexOfFirst(s, "hylite", |pre|);
    assert s[|pre| + 6] == c;
    assert s[|pre| + 7..] == post;
  }

  /** A trigger at the very end of a part is rejected too, and ends the part. */
  lemma TriggerAtEndRejected(lang: Language, line: nat, pre: string, term: bool, rest: seq<CommentPart>)
    requires forall j :: 0 <= j < |pre| ==> !OccursAt(pre + "hylite", "hylite", j)
    ensures Scan(lang, line, pre + "hylite", term, rest) == ExtractAll(lang, rest)
  {
    var s := pre + "hylite";
    assert s[|pre|..|pre| + 6] == "hylite";
    IndexOfFirst(s, "hylite", |pre|);
  }

  /** A writing at the first trigger `p`, accepted and opened by the character just before it,
      ends right before the first closer `q` of that character in the part; the part is scanned again from the character after the closer's
      first one, so the rest of a two-character closer is scanned too. */
  lemma GroupedWriting(lang: Language, line: nat, s: string, p: nat, g: string, q: nat, term: bool, rest: seq<CommentPart>)
    requires OccursAt(s, "hylite", p) && forall j :: 0 <= j < p ==> !OccursAt(s, "hylite", j)
    requires Accepted(s, p) && p > 0 && Closer(s[p - 1]) == Some(g) && p <= q
    requires OccursAt(s, g, q) && forall j :: 0 <= j < q ==> !OccursAt(s, g, j)
    ensures q < |s| && s[q + 1..] == g[1..] + s[q + |g|..]
    ensures Scan(lang, line, s, term, rest) == [HylitePart(line, s[p..q])] + Scan(lang, line, s[q + 1..], term, rest)
  {
    IndexOfFirst(s, "hylite", p);
    ScanGroups(lang, line, s, term, rest, p);
    IndexOfFirst(s, g, q);
    GroupedCloses(lang, line, s, p, g, term, rest, q);
  }

  /** An accepted trigger right after a grouping character starts a grouped writing. */
  lemma ScanGroups(lang: Language, line: nat, s: string, term: bool, rest: seq<CommentPart>, p: nat)
    requires IndexOf(s, "hylite") == Some(p) && Accepted(s, p) && p > 0 && Closer(s[p - 1]).Some?
    ensures Scan(lang, line, s, term, rest) == Grouped(lang, line, s, p, Closer(s[p - 1]).value, term, rest)
  {
  }

  /** A grouped writing whose closer follows the trigger is the text between them. */
  lemma GroupedCloses(lang: Language, line: nat, s: string, p: nat, g: string, term: bool, rest: seq<CommentPart>, q: nat)
    requires p <= q && q < |s| && |g| > 0 && IndexOf(s, g) == Some(q)
    ensures Grouped(lang, line, s, p, g, term, rest) == [HylitePart(line, s[p..q])] + Scan(lang, line, s[q + 1..], term, rest)
  {
  }

  /** No occurrence of `pat` starts before `i` when no character before `i` is its first one. */
  lemma NoOccurrenceBefore(s: string, pat: string, i: nat)
    requires |pat| > 0 && i <= |s|
    requires forall j :: 0 <= j < i ==> s[j] != pat[0]
    ensures forall j :: 0 <= j < i ==> !OccursAt(s, pat, j)
  {
    forall j | 0 <= j < i ensures !OccursAt(s, pat, j) {
      if j + |pat| <= |s| {
        assert s[j..j + |pat|][0] == s[j];
      }
    }
  }

  /** A closer before the trigger yields an empty writing and the part is scanned again after
      the closer. */
  lemma ClosedBeforeTrigger(lang: Language, line: nat, s: string, term: bool, rest: seq<CommentPart>, p: nat, q: nat)
    requires IndexOf(s, "hylite") == Some(p) && Accepted(s, p) && p > 0 && Closer(s[p - 1]).Some?
    requires IndexOf(s, Closer(s[p - 1]).value) == Some(q) && q < p
    ensures Scan(lang, line, s, term, rest) == [HylitePart(line, [])] + Scan(lang, line, s[q + 1..], term, rest)
  {
  }

  /** The closer is searched from the start of the part: a closer before the opener yields an
      empty writing, and the writing itself is found on the scan that follows. */
  lemma CloserBeforeTrigger()
    ensures Scan(Java, 1, "a) (hylite x: y)", true, []) == [HylitePart(1, ""), HylitePart(1, "hylite x: y")]
  {
    StrayCloser();
    ParenthesisedWriting();
  }

  lemma StrayCloser()
    ensures Scan(Java, 1, "a) (hylite x: y)", true, []) == [HylitePart(1, "")] + Scan(Java, 1, " (hylite x: y)", true, [])
  {
    var s := "a) (hylite x: y)";
    assert s[4..10] == "hylite";
    assert s[0] == 'a' && s[1] == ')' && s[2] == ' ' && s[3] == '(';
    NoOccurrenceBefore(s, "hylite", 4);
    IndexOfFirst(s, "hylite", 4);
    assert s[1..2] == ")";
    NoOccurrenceBefore(s, ")", 1);
    IndexOfFirst(s, ")", 1);
    ClosedBeforeTrigger(Java, 1, s, true, [], 4, 1);
    assert s[2..] == " (hylite x: y)";
  }

  lemma ParenthesisedWriting()
    ensures Scan(Java, 1, " (hylite x: y)", true, []) == [HylitePart(1, "hylite x: y")]
  {
    var t := " (hylite x: y)";
    assert t[2..8] == "hylite";
    assert t[0] == ' ' && t[1] == '(' && t[8] == ' ';
    NoOccurrenceBefore(t, "hylite", 2);
    assert t[..13] == " (hylite x: y";
    assert ')' !in t[..13];
    forall j | 0 <= j < 13 ensures t[j] != ')' {
      assert t[j] in t[..13];
    }
    NoOccurrenceBefore(t, ")", 13);
    assert t[13..14] == ")";
    GroupedWriting(Java, 1, t, 2, ")", 13, true, []);
    assert t[2..13] == "hylite x: y";
    assert t[14..] == [];
  }

  /** A tab after the trigger rejects it. */
  lemma TabRejectsTrigger()
    ensures Scan(Java, 1, "hylite\ta: b", true, []) == []
  {
    RejectedTriggerSkipped(Java, 1, "", '\t', "a: b", true, []);
    assert "" + "hylite" + ['\t'] + "a: b" == "hylite\ta: b";
    var t := "a: b";
    forall j | 0 <= j ensures !OccursAt(t, "hylite", j) {
    }
  }

  /** The texts of `ps`, each after a space. */
  function Joined(ps: seq<CommentPart>): (r: string)
    ensures ps == [] ==> r == []
  {
    if ps == [] then [] else " " + ps[0].text + Joined(ps[1..])
  }

  lemma JoinedStep(ps: seq<CommentPart>, m: nat)
    requires 0 < m <= |ps|
    ensures Joined(ps[..m]) == " " + ps[0].text + Joined(ps[1..m])
  {
    assert ps[..m][1..] == ps[1..m];
  }

  /** An ungrouped writing goes on through the parts that do not end their comment, each joined
      after a space. */
  lemma {:induction false} ContinueSkips(lang: Language, hp: HylitePart, rest: seq<CommentPart>, m: nat)
    requires m <= |rest|
    requires forall i :: 0 <= i < m ==> !rest[i].terminated
    ensures Continue(lang, hp, rest) == Continue(lang, HylitePart(hp.line, hp.text + Joined(rest[..m])), rest[m..])
    decreases m
  {
    if m == 0 {
      assert rest[..0] == [] && rest[0..] == rest && hp.text + [] == hp.text;
    } else {
      var hp2 := HylitePart(hp.line, hp.text + " " + rest[0].text);
      assert Continue(lang, hp, rest) == Continue(lang, hp2, rest[1..]);
      ContinueSkips(lang, hp2, rest[1..], m - 1);
      assert rest[1..][..m - 1] == rest[1..m] && rest[1..][m - 1..] == rest[m..];
      JoinedStep(rest, m);
      AppendAssociative(hp.text, " " + rest[0].text, Joined(rest[1..m]));
      assert hp.text + " " + rest[0].text == hp.text + (" " + rest[0].text);
    }
  }

  /** An ungrouped writing in a comment that goes on ends with the first part that ends the
      comment, which is joined too; the parts after it are scanned again. */
  lemma ContinueRuns(lang: Language, hp: HylitePart, rest: seq<CommentPart>, m: nat)
    requires m < |rest| && rest[m].terminated
    requires forall i :: 0 <= i < m ==> !rest[i].terminated
    ensures Continue(lang, hp, rest) == [HylitePart(hp.line, hp.text + Joined(rest[..m + 1]))] + ExtractAll(lang, rest[m + 1..])
  {
    ContinueSkips(lang, hp, rest, m);
    var h := HylitePart(hp.line, hp.text + Joined(rest[..m]));
    assert rest[m..][0] == rest[m] && rest[m..][1..] == rest[m + 1..];
    JoinedLast(rest, m);
    AppendAssociative(hp.text, Joined(rest[..m]), " " + rest[m].text);
    assert h.text + " " + rest[m].text == h.text + (" " + rest[m].text);
  }

  /** ... or with the end of the file. */
  lemma ContinueToEnd(lang: Language, hp: HylitePart, rest: seq<CommentPart>)
    requires forall i :: 0 <= i < |rest| ==> !rest[i].terminated
    ensures Continue(lang, hp, rest) == [HylitePart(hp.line, hp.text + Joined(rest))]
  {
    ContinueSkips(lang, hp, rest, |rest|);
    assert rest[..|rest|] == rest && rest[|rest|..] == [];
  }

  lemma {:induction false} JoinedLast(ps: seq<CommentPart>, m: nat)
    requires m < |ps|
    ensures Joined(ps[..m + 1]) == Joined(ps[..m]) + (" " + ps[m].text)
    decreases m
  {
    if m == 0 {
      assert ps[..1][1..] == [];
    } else {
      JoinedLast(ps[1..], m - 1);
      assert ps[1..][..m] == ps[1..m + 1] && ps[1..][..m - 1] == ps[1..m] && ps[1..][m - 1] == ps[m];
      JoinedStep(ps, m + 1);
      JoinedStep(ps, m);
      AppendAssociative(" " + ps[0].text, Joined(ps[1..m]), " " + ps[m].text);
    }
  }

  /** A grouped writing goes on through the parts that neither hold its closer nor end their
      comment, each joined after a space. */
  lemma {:induction false} GroupContSkips(lang: Language, g: string, hp: HylitePart, rest: seq<CommentPart>, m: nat)
    requires |g| > 0 && m <= |rest|
    requires forall i :: 0 <= i < m ==> !rest[i].terminated && IndexOf(rest[i].text, g).None?
    ensures GroupCont(lang, g, hp, rest) == GroupCont(lang, g, HylitePart(hp.line, hp.text + Joined(rest[..m])), rest[m..])
    decreases m
  {
    if m == 0 {
      assert rest[..0] == [] && rest[0..] == rest && hp.text + [] == hp.text;
    } else {
      var hp2 := HylitePart(hp.line, hp.text + " " + rest[0].text);
      assert GroupCont(lang, g, hp, rest) == GroupCont(lang, g, hp2, rest[1..]);
      GroupContSkips(lang, g, hp2, rest[1..], m - 1);
      assert rest[1..][..m - 1] == rest[1..m] && rest[1..][m - 1..] == rest[m..];
      JoinedStep(rest, m);
      AppendAssociative(hp.text, " " + rest[0].text, Joined(rest[1..m]));
      assert hp.text + " " + rest[0].text == hp.text + (" " + rest[0].text);
    }
  }

  /** A grouped writing whose closer is missing ends with the first part that ends its comment,
      which is joined too; the parts after it are scanned again. */
  lemma GroupContRuns(lang: Language, g: string, hp: HylitePart, rest: seq<CommentPart>, m: nat)
    requires |g| > 0 && m < |rest| && rest[m].terminated && IndexOf(rest[m].text, g).None?
    requires forall i :: 0 <= i < m ==> !rest[i].terminated && IndexOf(rest[i].text, g).None?
    ensures GroupCont(lang, g, hp, rest) == [HylitePart(hp.line, hp.text + Joined(rest[..m + 1]))] + ExtractAll(lang, rest[m + 1..])
  {
    GroupContSkips(lang, g, hp, rest, m);
    var h := HylitePart(hp.line, hp.text + Joined(rest[..m]));
    assert rest[m..][0] == rest[m] && rest[m..][1..] == rest[m + 1..];
    JoinedLast(rest, m);
    AppendAssociative(hp.text, Joined(rest[..m]), " " + rest[m].text);
    assert h.text + " " + rest[m].text == h.text + (" " + rest[m].text);
  }

  /** A grouped writing continued on later parts ends before the first closer on them; the text
      before it is joined and the rest of that part is scanned again. */
  lemma GroupContCloses(lang: Language, g: string, hp: HylitePart, rest: seq<CommentPart>, m: nat)
    requires |g| > 0 && m < |rest| && IndexOf(rest[m].text, g).Some?
    requires forall i :: 0 <= i < m ==> !rest[i].terminated && IndexOf(rest[i].text, g).None?
    ensures var c := rest[m];
            var q := IndexOf(c.text, g).value;
            GroupCont(lang, g, hp, rest) ==
              [HylitePart(hp.line, hp.text + Joined(rest[..m]) + " " + c.text[..q])] +
              Scan(lang, c.line, c.text[q + 1..], c.terminated, rest[m + 1..])
  {
    GroupContSkips(lang, g, hp, rest, m);
    assert rest[m..][0] == rest[m] && rest[m..][1..] == rest[m + 1..];
  }

  /** A grouped writing with no closer up to the end of the file ends with it. */
  lemma GroupContToEnd(lang: Language, g: string, hp: HylitePart, rest: seq<CommentPart>)
    requires |g| > 0
    requires forall i :: 0 <= i < |rest| ==> !rest[i].terminated && IndexOf(rest[i].text, g).None?
    ensures GroupCont(lang, g, hp, rest) == [HylitePart(hp.line, hp.text + Joined(rest))]
  {
    GroupContSkips(lang, g, hp, rest, |rest|);
    assert rest[..|rest|] == rest && rest[|rest|..] == [];
  }

  // ---------------------------------------------------------------------------------------------
  // one step at a time, as the scanner takes them

  /** The writings of a stream are those of its first part, scanned with the rest behind it. */
  lemma ExtractAllCons(lang: Language, c: CommentPart, rest: seq<CommentPart>)
    ensures ExtractAll(lang, [c] + rest) == Scan(lang, c.line, c.text, c.terminated, rest)
  {
    assert ([c] + rest)[1..] == rest;
  }

  /** A part with no trigger left holds no more writings; a rejected trigger is skipped with
      the character after it. */
  lemma ScanStep(lang: Language, line: nat, s: string, term: bool, rest: seq<CommentPart>)
    ensures s == [] || IndexOf(s, "hylite").None? ==> Scan(lang, line, s, term, rest) == ExtractAll(lang, rest)
    ensures s != [] && IndexOf(s, "hylite").Some? && !Accepted(s, IndexOf(s, "hylite").value) ==>
              var p := IndexOf(s, "hylite").value;
              Scan(lang, line, s, term, rest) == Scan(lang, line, if p + 7 >= |s| then [] else s[p + 7..], term, rest)
  {
  }

  /** An accepted trigger with no opener before it: the writing ends with its part when the part
      ends its comment (or in a `Text` file) and goes on into the following parts otherwise. */
  lemma ScanUngrouped(lang: Language, line: nat, s: string, term: bool, rest: seq<CommentPart>, p: nat)
    requires IndexOf(s, "hylite") == Some(p) && Accepted(s, p) && (p == 0 || Closer(s[p - 1]).None?)
    ensures term || lang == Text ==> Scan(lang, line, s, term, rest) == [HylitePart(line, s[p..])] + ExtractAll(lang, rest)
    ensures !term && lang != Text ==> Scan(lang, line, s, term, rest) == Continue(lang, HylitePart(line, s[p..]), rest)
  {
  }

  /** The three ends of a grouped writing on its own part. */
  lemma GroupedStep(lang: Language, line: nat, s: string, p: nat, g: string, term: bool, rest: seq<CommentPart>)
    requires p <= |s| && |g| > 0
    ensures IndexOf(s, g).Some? ==>
              var q := IndexOf(s, g).value;
              Grouped(lang, line, s, p, g, term, rest) ==
                [HylitePart(line, if q < p then [] else s[p..q])] + Scan(lang, line, s[q + 1..], term, rest)
    ensures IndexOf(s, g).None? && term ==>
              Grouped(lang, line, s, p, g, term, rest) == [HylitePart(line, s[p..])] + ExtractAll(lang, rest)
    ensures IndexOf(s, g).None? && !term ==>
              Grouped(lang, line, s, p, g, term, rest) == GroupCont(lang, g, HylitePart(line, s[p..]), rest)
  {
  }

  /** One more part of an ungrouped writing. */
  lemma ContinueStep(lang: Language, hp: HylitePart, c: CommentPart, rest: seq<CommentPart>)
    ensures var hp2 := HylitePart(hp.line, hp.text + " " + c.text);
            Continue(lang, hp, [c] + rest) == if c.terminated then [hp2] + ExtractAll(lang, rest) else Continue(lang, hp2, rest)
  {
    assert ([c] + rest)[1..] == rest;
  }

  /** One more part of a grouped writing. */
  lemma GroupContStep(lang: Language, g: string, hp: HylitePart, c: CommentPart, rest: seq<CommentPart>)
    requires |g| > 0
    ensures IndexOf(c.text, g).Some? ==>
              var q := IndexOf(c.text, g).value;
              GroupCont(lang, g, hp, [c] + rest) ==
                [HylitePart(hp.line, hp.text + " " + c.text[..q])] + Scan(lang, c.line, c.text[q + 1..], c.terminated, rest)
    ensures IndexOf(c.text, g).None? ==>
              var hp2 := HylitePart(hp.line, hp.text + " " + c.text);
              GroupCont(lang, g, hp, [c] + rest) ==
                if c.terminated then [hp2] + ExtractAll(lang, rest) else GroupCont(lang, g, hp2, rest)
  {
    assert ([c] + rest)[1..] == rest;
  }
}


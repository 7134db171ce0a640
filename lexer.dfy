/** The comment lexer of `Scanner` in lib/rb/esus/hylib.rb, as functions: the file types, the
    table from file extensions to types, `determine_type`, the table of comment delimiters, and
    the whole stream of comment parts a file yields. `fill_comment_part_buf` delivers this stream
    a piece at a time; the class `Scanners.Scanner` is proved to do so. A file is the sequence of
    the lines `file.gets` returns, each with its line feed (the last one may have none). */
module Lexer {
  import opened Strings

  /** The file types the scanner knows. */
  datatype Language = Java | C | Cpp | Perl | Ruby | Text | Html | Xml | Yaml

  /** `TYPE_TO_EXTENSION_MAP`: the extensions of each file type. */
  function TypeExtensions(l: Language): seq<string>
  {
    match l
    case Java => ["java"]
    case C => ["c", "h"]
    case Cpp => ["c++", "cpp"]
    case Perl => ["pl", "perl"]
    case Ruby => ["rb", "ruby", "rbw"]
    case Text => ["txt", "out"]
    case Html => ["html", "htm"]
    case Xml => ["xml", "jtdl", "jtdli", "jul"]
    case Yaml => ["yaml", "yml"]
  }

  /** `$extension_to_type_map[x]`: the map built by inverting the table above. */
  function ExtensionType(x: string): Option<Language>
  {
    if x == "java" then Some(Java)
    else if x == "c" || x == "h" then Some(C)
    else if x == "c++" || x == "cpp" then Some(Cpp)
    else if x == "pl" || x == "perl" then Some(Perl)
    else if x == "rb" || x == "ruby" || x == "rbw" then Some(Ruby)
    else if x == "txt" || x == "out" then Some(Text)
    else if x == "html" || x == "htm" then Some(Html)
    else if x == "xml" || x == "jtdl" || x == "jtdli" || x == "jul" then Some(Xml)
    else if x == "yaml" || x == "yml" then Some(Yaml)
    else None
  }

  /** The extension map is exactly the inverse of the table: an extension maps to a type iff the
      type lists it, so no extension is listed twice. */
  lemma ExtensionMapInvertsTable(x: string, l: Language)
    ensures ExtensionType(x) == Some(l) <==> x in TypeExtensions(l)
  {
    if x in TypeExtensions(l) {
      ListedExtension(x, l);
    } else {
      match l
      case Java =>
      case C =>
      case Cpp =>
      case Perl =>
      case Ruby =>
      case Text =>
      case Html =>
      case Xml =>
      case Yaml =>
    }
  }

  /** An extension the table lists under `l` maps to `l`. */
  lemma ListedExtension(x: string, l: Language)
    requires x in TypeExtensions(l)
    ensures ExtensionType(x) == Some(l)
  {
    var i :| 0 <= i < |TypeExtensions(l)| && TypeExtensions(l)[i] == x;
    match l
    case Java =>
    case C =>
    case Cpp =>
    case Perl =>
    case Ruby =>
    case Text =>
    case Html =>
    case Xml =>
    case Yaml =>
  }

  /** The last position before `i` holding a `.` that is not the last character of `s`. */
  function LastDot(s: string, i: nat): (r: Option<nat>)
    requires i <= |s|
    ensures r.Some? ==> r.value < i && r.value + 1 < |s| && s[r.value] == '.'
    ensures forall j :: 0 <= j < i && (r.None? || r.value < j) && j + 1 < |s| ==> s[j] != '.'
  {
    if i == 0 then None
    else if s[i - 1] == '.' && i < |s| then Some(i - 1)
    else LastDot(s, i - 1)
  }

  /** `determine_type`: the type of the extension `/.*\.(.+)/` captures (everything after the
      last `.` that has something after it), `Text` when there is none or it is unknown. */
  function DetermineType(file: string): Language
  {
    match LastDot(file, |file|)
    case None => Text
    case Some(j) =>
      match ExtensionType(file[j + 1..])
      case None => Text
      case Some(l) => l
  }

  /** A file name ending in `.x`, where `x` holds no `.`, gets the type of extension `x`, and
      `Text` when `x` is unknown. */
  lemma DetermineTypeOfExtension(stem: string, x: string)
    requires x != [] && '.' !in x
    ensures DetermineType(stem + "." + x) == match ExtensionType(x) case Some(l) => l case None => Text
  {
    var file := stem + "." + x;
    var d := LastDot(file, |file|);
    assert file[|stem|] == '.';
    forall j | |stem| < j < |file| ensures file[j] != '.' {
      assert file[j] == x[j - |stem| - 1];
    }
    assert d == Some(|stem|);
    assert file[|stem| + 1..] == x;
  }

  /** A file name with no `.` before its last character is `Text`. */
  lemma NoExtensionIsText(file: string)
    requires forall j :: 0 <= j < |file| - 1 ==> file[j] != '.'
    ensures DetermineType(file) == Text
  {
  }

  /** The comment delimiters of a type with comments (`@@comment_delimiters`): the line-comment
      opener, the block-comment opener and the block-comment closer. */
  datatype Delimiters = Delimiters(line: Option<string>, open: Option<string>, close: string)

  /** `@@comment_delimiters[lang]`. The Perl, Ruby and YAML opener is the single-quoted Ruby
      literal `'\x23'`, the four characters backslash, `x`, `2`, `3`, not `#`. `Text` has no
      entry: a `Text` file is read line by line and never looked up, so it is given no openers
      here. */
  function Delims(lang: Language): (d: Delimiters)
    ensures d.line.Some? ==> |d.line.value| > 0
    ensures d.open.Some? ==> |d.open.value| > 0 && |d.close| > 0
  {
    match lang
    case Java => Delimiters(Some("//"), Some("/*"), "*/")
    case C => Delimiters(Some("//"), Some("/*"), "*/")
    case Cpp => Delimiters(Some("//"), Some("/*"), "*/")
    case Html => Delimiters(None, Some("<!--"), "-->")
    case Xml => Delimiters(None, Some("<!--"), "-->")
    case Perl => Delimiters(Some("\\x23"), None, "")
    case Ruby => Delimiters(Some("\\x23"), None, "")
    case Yaml => Delimiters(Some("\\x23"), None, "")
    case Text => Delimiters(None, None, "")
  }

  /** A `CommentPart`: a piece of comment (for `Text`, a whole line) with the number of its line
      and whether the comment ends with it. */
  datatype CommentPart = CommentPart(line: nat, text: string, terminated: bool)

  /** The parts of a `Text` file from line index `k` on: each line, stripped, unterminated. */
  function TextFrom(lines: seq<string>, k: nat): seq<CommentPart>
    requires k <= |lines|
    decreases |lines| - k
  {
    if k == |lines| then [] else [CommentPart(k + 1, Strip(lines[k]), false)] + TextFrom(lines, k + 1)
  }

  /** The comment parts of the rest of the file from line index `k` on, for a type with
      comments. */
  function LexFrom(lang: Language, lines: seq<string>, k: nat): seq<CommentPart>
    requires k <= |lines|
    decreases |lines| - k, 1, 0
  {
    if k == |lines| then [] else LexLine(lang, lines, k, lines[k])
  }

  /** Where the first comment starts in a piece of line: nowhere, at a line-comment opener, or at
      a block-comment opener. */
  datatype Opener = NoComment | LineAt(pos: nat) | BlockAt(pos: nat)

  /** The earlier of the first line-comment opener and the first block-comment opener of `rest`;
      the line comment wins a tie. */
  function FirstOpener(d: Delimiters, rest: string): (o: Opener)
    ensures o.LineAt? ==> d.line.Some? && OccursAt(rest, d.line.value, o.pos)
    ensures o.BlockAt? ==> d.open.Some? && OccursAt(rest, d.open.value, o.pos)
  {
    var lc := if d.line.Some? then IndexOf(rest, d.line.value) else None;
    var bc := if d.open.Some? then IndexOf(rest, d.open.value) else None;
    if lc.None? && bc.None? then NoComment
    else if lc.Some? && (bc.None? || lc.value <= bc.value) then LineAt(lc.value)
    else BlockAt(bc.value)
  }

  /** No opener of either kind occurs before the one `FirstOpener` picks. */
  lemma FirstOpenerIsFirst(d: Delimiters, rest: string)
    ensures var o := FirstOpener(d, rest);
            d.line.Some? ==> forall j :: 0 <= j && (o.NoComment? || j < o.pos) ==> !OccursAt(rest, d.line.value, j)
    ensures var o := FirstOpener(d, rest);
            d.open.Some? ==> forall j :: 0 <= j && (o.NoComment? || j < o.pos) ==> !OccursAt(rest, d.open.value, j)
  {
  }

  /** The comment parts of `rest`, the unscanned remainder of line `k`, and of everything after
      it: one pass of the `while line` loop. A line comment takes the stripped rest of the line;
      a block comment continues in `BlockOpen`. */
  function LexLine(lang: Language, lines: seq<string>, k: nat, rest: string): seq<CommentPart>
    requires k < |lines|
    decreases |lines| - k, 0, |rest|
  {
    if rest == [] then LexFrom(lang, lines, k + 1)
    else
      var d := Delims(lang);
      match FirstOpener(d, rest)
      case NoComment => LexFrom(lang, lines, k + 1)
      case LineAt(i) => [CommentPart(k + 1, Strip(rest[i + |d.line.value|..]), true)] + LexFrom(lang, lines, k + 1)
      case BlockAt(i) => BlockOpen(lang, lines, k, rest[i + |d.open.value|..])
  }

  /** The comment parts of `after`, the text of line `k` after a block opener, and of everything
      after it. */
  function BlockOpen(lang: Language, lines: seq<string>, k: nat, after: string): seq<CommentPart>
    requires Delims(lang).open.Some? && k < |lines|
    decreases |lines| - k, 0, |after|
  {
    var d := Delims(lang);
    match IndexOf(after, d.close)
    case Some(e) => [CommentPart(k + 1, after[..e], true)] + LexLine(lang, lines, k, after[e + |d.close|..])
    case None => [CommentPart(k + 1, after, false)] + BlockCont(lang, lines, k + 1)
  }

  /** The comment parts from line index `j` on, inside a block comment opened on an earlier line:
      each line without the closer is one stripped, unterminated part; the line with it yields
      the unstripped text before it as a terminated part, and scanning resumes after the closer.
      The end of the file ends the block. */
  function BlockCont(lang: Language, lines: seq<string>, j: nat): seq<CommentPart>
    requires j <= |lines|
    decreases |lines| - j, 1, 0
  {
    if j == |lines| then []
    else
      var d := Delims(lang);
      match IndexOf(lines[j], d.close)
      case Some(e) => [CommentPart(j + 1, lines[j][..e], true)] + LexLine(lang, lines, j, lines[j][e + |d.close|..])
      case None => [CommentPart(j + 1, Strip(lines[j]), false)] + BlockCont(lang, lines, j + 1)
  }

  /** Every comment part a file of type `lang` yields from line index `k` on. */
  function Lex(lang: Language, lines: seq<string>, k: nat): seq<CommentPart>
    requires k <= |lines|
  {
    if lang == Text then TextFrom(lines, k) else LexFrom(lang, lines, k)
  }

  // ---------------------------------------------------------------------------------------------
  // what the stream is made of

  /** A string with no line feed before its last character: a line as `gets` returns it, or a
      piece of one. */
  predicate OneLine(s: string)
  {
    forall i :: 0 <= i < |s| - 1 ==> s[i] != '\n'
  }

  lemma OneLineSlice(s: string, a: nat, b: nat)
    requires OneLine(s) && a <= b <= |s|
    ensures OneLine(s[a..b])
  {
    forall i | 0 <= i < b - a - 1 ensures s[a..b][i] != '\n' {
      assert s[a..b][i] == s[a + i];
    }
  }

  lemma OneLineStrip(s: string)
    requires OneLine(s)
    ensures OneLine(Strip(s))
  {
    var i := SpaceEnd(s, 0);
    if i < |s| {
      OneLineSlice(s, i, SpaceStart(s, |s|));
    }
  }

  /** Every line of the file is one line. */
  predicate Lines(lines: seq<string>)
  {
    forall k :: 0 <= k < |lines| ==> OneLine(lines[k])
  }

  /** The parts are pieces of single lines, and their line numbers lie between `lo` and `hi`. */
  predicate PartsFrom(ps: seq<CommentPart>, lo: nat, hi: nat)
    decreases |ps|
  {
    ps == [] || (OneLine(ps[0].text) && lo <= ps[0].line <= hi && PartsFrom(ps[1..], lo, hi))
  }

  /** `PartsFrom`, part by part. */
  lemma {:induction false} PartsFromEach(ps: seq<CommentPart>, lo: nat, hi: nat)
    ensures PartsFrom(ps, lo, hi) <==> forall i :: 0 <= i < |ps| ==> OneLine(ps[i].text) && lo <= ps[i].line <= hi
    decreases |ps|
  {
    if ps != [] {
      PartsFromEach(ps[1..], lo, hi);
      assert forall i :: 0 < i < |ps| ==> ps[i] == ps[1..][i - 1];
    }
  }

  lemma {:induction false} PartsFromWiden(ps: seq<CommentPart>, lo: nat, lo2: nat, hi: nat)
    requires PartsFrom(ps, lo, hi) && lo2 <= lo
    ensures PartsFrom(ps, lo2, hi)
    decreases |ps|
  {
    if ps != [] {
      PartsFromWiden(ps[1..], lo, lo2, hi);
    }
  }

  /** Each comment part of a file is a piece of one line, numbered after the line it comes from:
      no part is numbered before line `k + 1` or after the last line. */
  lemma {:induction false} LexFromParts(lang: Language, lines: seq<string>, k: nat)
    requires k <= |lines| && Lines(lines)
    ensures PartsFrom(LexFrom(lang, lines, k), k + 1, |lines|)
    decreases |lines| - k, 1, 0, 1
  {
    if k < |lines| {
      LexLineParts(lang, lines, k, lines[k]);
    }
  }

  lemma {:induction false} LexLineParts(lang: Language, lines: seq<string>, k: nat, rest: string)
    requires k < |lines| && Lines(lines) && OneLine(rest)
    ensures PartsFrom(LexLine(lang, lines, k, rest), k + 1, |lines|)
    decreases |lines| - k, 0, |rest|, 1
  {
    var o := FirstOpener(Delims(lang), rest);
    if rest == [] || o.NoComment? {
      NoOpenerParts(lang, lines, k, rest);
    } else if o.LineAt? {
      LineOpenerParts(lang, lines, k, rest, o.pos);
    } else {
      BlockOpenerParts(lang, lines, k, rest, o.pos);
    }
  }

  /** Nothing more on line `k`: the parts of the following lines. */
  lemma {:induction false} LineEndParts(lang: Language, lines: seq<string>, k: nat)
    requires k < |lines| && Lines(lines)
    ensures PartsFrom(LexFrom(lang, lines, k + 1), k + 1, |lines|)
    decreases |lines| - (k + 1), 2, 0, 0
  {
    LexFromParts(lang, lines, k + 1);
    PartsFromWiden(LexFrom(lang, lines, k + 1), k + 2, k + 1, |lines|);
  }

  /** No opener in what is left of line `k`. */
  lemma {:induction false} NoOpenerParts(lang: Language, lines: seq<string>, k: nat, rest: string)
    requires k < |lines| && Lines(lines)
    requires rest == [] || FirstOpener(Delims(lang), rest).NoComment?
    ensures PartsFrom(LexLine(lang, lines, k, rest), k + 1, |lines|)
    decreases |lines| - k, 0, |rest|, 0
  {
    LexLineStep(lang, lines, k, rest);
    LineEndParts(lang, lines, k);
  }

  /** A line comment opening at `i` in what is left of line `k`. */
  lemma {:induction false} LineOpenerParts(lang: Language, lines: seq<string>, k: nat, rest: string, i: nat)
    requires k < |lines| && Lines(lines) && OneLine(rest)
    requires rest != [] && FirstOpener(Delims(lang), rest) == LineAt(i)
    ensures PartsFrom(LexLine(lang, lines, k, rest), k + 1, |lines|)
    decreases |lines| - k, 0, |rest|, 0
  {
    LexLineStep(lang, lines, k, rest);
    var n := |Delims(lang).line.value|;
    OneLineSlice(rest, i + n, |rest|);
    LineCommentParts(lang, lines, k, rest[i + n..]);
  }

  /** A block comment opening at `i` in what is left of line `k`. */
  lemma {:induction false} BlockOpenerParts(lang: Language, lines: seq<string>, k: nat, rest: string, i: nat)
    requires k < |lines| && Lines(lines) && OneLine(rest)
    requires rest != [] && FirstOpener(Delims(lang), rest) == BlockAt(i)
    ensures PartsFrom(LexLine(lang, lines, k, rest), k + 1, |lines|)
    decreases |lines| - k, 0, |rest|, 0
  {
    LexLineStep(lang, lines, k, rest);
    var n := |Delims(lang).open.value|;
    OneLineSlice(rest, i + n, |rest|);
    BlockOpenParts(lang, lines, k, rest[i + n..]);
  }

  /** A line comment whose text is `t` ends line `k`. */
  lemma {:induction false} LineCommentParts(lang: Language, lines: seq<string>, k: nat, t: string)
    requires k < |lines| && Lines(lines) && OneLine(t)
    ensures PartsFrom([CommentPart(k + 1, Strip(t), true)] + LexFrom(lang, lines, k + 1), k + 1, |lines|)
    decreases |lines| - k, 0, |t|, 1
  {
    LineEndParts(lang, lines, k);
    OneLineStrip(t);
    PartsCons(CommentPart(k + 1, Strip(t), true), LexFrom(lang, lines, k + 1), k + 1, |lines|);
  }

  /** The part of `LexLine` after a block opener, with `after` the text that follows it. */
  lemma {:induction false} BlockOpenParts(lang: Language, lines: seq<string>, k: nat, after: string)
    requires Delims(lang).open.Some? && k < |lines| && Lines(lines) && OneLine(after)
    ensures PartsFrom(BlockOpen(lang, lines, k, after), k + 1, |lines|)
    decreases |lines| - k, 0, |after|, 2
  {
    var e := IndexOf(after, Delims(lang).close);
    if e.Some? {
      ClosedOnLineParts(lang, lines, k, after, e.value);
    } else {
      OpenAtEndParts(lang, lines, k, after);
    }
  }

  /** A block comment closing at `e` in `after`, on the line it opens on. */
  lemma {:induction false} ClosedOnLineParts(lang: Language, lines: seq<string>, k: nat, after: string, e: nat)
    requires Delims(lang).open.Some? && k < |lines| && Lines(lines) && OneLine(after)
    requires IndexOf(after, Delims(lang).close) == Some(e)
    ensures PartsFrom(BlockOpen(lang, lines, k, after), k + 1, |lines|)
    decreases |lines| - k, 0, |after|, 1
  {
    var pre, post := OpenLineSplit(lang, lines, k, after, e);
    ClosedParts(lang, lines, k, pre, post, BlockOpen(lang, lines, k, after));
  }

  /** The text before and after the closer found at `e` in `after`: both stay on one line. */
  lemma OpenLineSplit(lang: Language, lines: seq<string>, k: nat, after: string, e: nat) returns (pre: string, post: string)
    requires Delims(lang).open.Some? && k < |lines| && OneLine(after) && IndexOf(after, Delims(lang).close) == Some(e)
    ensures OneLine(pre) && OneLine(post) && |post| < |after|
    ensures BlockOpen(lang, lines, k, after) == [CommentPart(k + 1, pre, true)] + LexLine(lang, lines, k, post)
  {
    var close := Delims(lang).close;
    CloserNotEmpty(lang);
    ClosedOnOpenLine(lang, lines, k, after, close, e);
    pre, post := after[..e], after[e + |close|..];
    OneLineSlice(after, 0, e);
    assert after[..e] == after[0..e];
    OneLineSlice(after, e + |close|, |after|);
  }

  /** The text before and after the closer on line `j`, inside a block comment: both stay on one
      line. */
  lemma ContLineSplit(lang: Language, lines: seq<string>, j: nat) returns (pre: string, post: string)
    requires j < |lines| && Lines(lines) && IndexOf(lines[j], Delims(lang).close).Some?
    ensures OneLine(pre) && OneLine(post)
    ensures BlockCont(lang, lines, j) == [CommentPart(j + 1, pre, true)] + LexLine(lang, lines, j, post)
  {
    var close := Delims(lang).close;
    var e := IndexOf(lines[j], close).value;
    ClosedOnContLine(lang, lines, j, lines[j], close, e);
    pre, post := lines[j][..e], lines[j][e + |close|..];
    assert OneLine(lines[j]);
    OneLineSlice(lines[j], 0, e);
    assert lines[j][..e] == lines[j][0..e];
    OneLineSlice(lines[j], e + |close|, |lines[j]|);
  }

  /** The closer `close` found at `e` in `after`, the rest of line `k` after the opener. */
  lemma ClosedOnOpenLine(lang: Language, lines: seq<string>, k: nat, after: string, close: string, e: nat)
    requires Delims(lang).open.Some? && k < |lines| && close == Delims(lang).close && IndexOf(after, close) == Some(e)
    ensures e + |close| <= |after|
    ensures BlockOpen(lang, lines, k, after) == [CommentPart(k + 1, after[..e], true)] + LexLine(lang, lines, k, after[e + |close|..])
  {
  }

  /** The closer `close` found at `e` in `line`, line `j` inside a block comment. */
  lemma ClosedOnContLine(lang: Language, lines: seq<string>, j: nat, line: string, close: string, e: nat)
    requires j < |lines| && line == lines[j] && close == Delims(lang).close && IndexOf(line, close) == Some(e)
    ensures e + |close| <= |line|
    ensures BlockCont(lang, lines, j) == [CommentPart(j + 1, line[..e], true)] + LexLine(lang, lines, j, line[e + |close|..])
  {
  }

  /** A block comment closing on line `k`: the text `pre` before the closer, then the parts of
      `post`, the rest of the line after it. */
  lemma {:induction false} ClosedParts(lang: Language, lines: seq<string>, k: nat, pre: string, post: string,
                                       ps: seq<CommentPart>)
    requires k < |lines| && Lines(lines) && OneLine(pre) && OneLine(post)
    requires ps == [CommentPart(k + 1, pre, true)] + LexLine(lang, lines, k, post)
    ensures PartsFrom(ps, k + 1, |lines|)
    decreases |lines| - k, 0, |post|, 2
  {
    LexLineParts(lang, lines, k, post);
    PartsCons(CommentPart(k + 1, pre, true), LexLine(lang, lines, k, post), k + 1, |lines|);
  }

  /** A block comment left open at the end of line `k`, with `after` the rest of that line. */
  lemma {:induction false} OpenAtEndParts(lang: Language, lines: seq<string>, k: nat, after: string)
    requires Delims(lang).open.Some? && k < |lines| && Lines(lines) && OneLine(after)
    requires IndexOf(after, Delims(lang).close).None?
    ensures PartsFrom(BlockOpen(lang, lines, k, after), k + 1, |lines|)
    decreases |lines| - k, 0, |after|, 0
  {
    BlockOpenStep(lang, lines, k, after);
    BlockContParts(lang, lines, k + 1);
    PartsFromWiden(BlockCont(lang, lines, k + 1), k + 2, k + 1, |lines|);
    PartsCons(CommentPart(k + 1, after, false), BlockCont(lang, lines, k + 1), k + 1, |lines|);
  }

  lemma PartsCons(p: CommentPart, tail: seq<CommentPart>, lo: nat, hi: nat)
    requires OneLine(p.text) && lo <= p.line <= hi && PartsFrom(tail, lo, hi)
    ensures PartsFrom([p] + tail, lo, hi)
  {
    assert ([p] + tail)[1..] == tail;
  }

  lemma {:induction false} BlockContParts(lang: Language, lines: seq<string>, j: nat)
    requires j <= |lines| && Lines(lines)
    ensures PartsFrom(BlockCont(lang, lines, j), j + 1, |lines|)
    decreases |lines| - j, 1, 0, 1
  {
    if j == |lines| {
      BlockContStep(lang, lines, j);
    } else if IndexOf(lines[j], Delims(lang).close).Some? {
      ClosingLineParts(lang, lines, j);
    } else {
      OpenLineParts(lang, lines, j);
    }
  }

  /** Line `j` closes the block comment. */
  lemma {:induction false} ClosingLineParts(lang: Language, lines: seq<string>, j: nat)
    requires j < |lines| && Lines(lines) && IndexOf(lines[j], Delims(lang).close).Some?
    ensures PartsFrom(BlockCont(lang, lines, j), j + 1, |lines|)
    decreases |lines| - j, 1, 0, 0
  {
    var pre, post := ContLineSplit(lang, lines, j);
    ClosedParts(lang, lines, j, pre, post, BlockCont(lang, lines, j));
  }

  /** Line `j` stays inside the block comment. */
  lemma {:induction false} OpenLineParts(lang: Language, lines: seq<string>, j: nat)
    requires j < |lines| && Lines(lines) && IndexOf(lines[j], Delims(lang).close).None?
    ensures PartsFrom(BlockCont(lang, lines, j), j + 1, |lines|)
    decreases |lines| - j, 1, 0, 0
  {
    BlockContStep(lang, lines, j);
    OneLineStrip(lines[j]);
    BlockContParts(lang, lines, j + 1);
    PartsFromWiden(BlockCont(lang, lines, j + 1), j + 2, j + 1, |lines|);
    PartsCons(CommentPart(j + 1, Strip(lines[j]), false), BlockCont(lang, lines, j + 1), j + 1, |lines|);
  }

  lemma {:induction false} TextFromParts(lines: seq<string>, k: nat)
    requires k <= |lines| && Lines(lines)
    ensures PartsFrom(TextFrom(lines, k), k + 1, |lines|)
    decreases |lines| - k
  {
    if k < |lines| {
      OneLineStrip(lines[k]);
      TextFromParts(lines, k + 1);
      PartsFromWiden(TextFrom(lines, k + 1), k + 2, k + 1, |lines|);
      PartsCons(CommentPart(k + 1, Strip(lines[k]), false), TextFrom(lines, k + 1), k + 1, |lines|);
    }
  }

  lemma LexParts(lang: Language, lines: seq<string>, k: nat)
    requires k <= |lines| && Lines(lines)
    ensures PartsFrom(Lex(lang, lines, k), k + 1, |lines|)
  {
    if lang == Text { TextFromParts(lines, k); } else { LexFromParts(lang, lines, k); }
  }

  // ---------------------------------------------------------------------------------------------
  // what the lexer yields

  /** In `Text` mode every line is one part: the line stripped, unterminated, numbered after it. */
  lemma {:induction false} TextFromEach(lines: seq<string>, k: nat)
    requires k <= |lines|
    ensures |TextFrom(lines, k)| == |lines| - k
    ensures forall i :: 0 <= i < |lines| - k ==> TextFrom(lines, k)[i] == CommentPart(k + i + 1, Strip(lines[k + i]), false)
  {
    TextFromLength(lines, k);
    forall i | 0 <= i < |lines| - k ensures TextFrom(lines, k)[i] == CommentPart(k + i + 1, Strip(lines[k + i]), false) {
      TextFromAt(lines, k, i);
    }
  }

  lemma {:induction false} TextFromLength(lines: seq<string>, k: nat)
    requires k <= |lines|
    ensures |TextFrom(lines, k)| == |lines| - k
    decreases |lines| - k
  {
    if k < |lines| {
      TextFromLength(lines, k + 1);
    }
  }

  lemma {:induction false} TextFromAt(lines: seq<string>, k: nat, i: nat)
    requires k + i < |lines|
    ensures i < |TextFrom(lines, k)| && TextFrom(lines, k)[i] == CommentPart(k + i + 1, Strip(lines[k + i]), false)
    decreases i
  {
    var head := CommentPart(k + 1, Strip(lines[k]), false);
    assert TextFrom(lines, k) == [head] + TextFrom(lines, k + 1);
    if i > 0 {
      TextFromAt(lines, k + 1, i - 1);
    }
  }


  /** The first occurrence of `pat` in `s` is at `i` when it occurs there and nowhere before. */
  lemma IndexOfFirst(s: string, pat: string, i: nat)
    requires OccursAt(s, pat, i)
    requires forall j :: 0 <= j < i ==> !OccursAt(s, pat, j)
    ensures IndexOf(s, pat) == Some(i)
  {
  }

  /** A line comment: when neither opener occurs before `opener` in the line, the line yields the
      stripped text after it as one terminated part, and the next line follows. */
  lemma LineComment(lang: Language, lines: seq<string>, k: nat, pre: string, body: string)
    requires k < |lines| && Delims(lang).line.Some?
    requires var line := pre + Delims(lang).line.value + body;
             forall j :: 0 <= j < |pre| ==> !OccursAt(line, Delims(lang).line.value, j)
    requires var line := pre + Delims(lang).line.value + body;
             Delims(lang).open.Some? ==> forall j :: 0 <= j < |pre| ==> !OccursAt(line, Delims(lang).open.value, j)
    ensures LexLine(lang, lines, k, pre + Delims(lang).line.value + body) ==
              [CommentPart(k + 1, Strip(body), true)] + LexFrom(lang, lines, k + 1)
  {
    var d := Delims(lang);
    var line := pre + d.line.value + body;
    assert line[|pre|..|pre| + |d.line.value|] == d.line.value;
    IndexOfFirst(line, d.line.value, |pre|);
    assert FirstOpener(d, line) == LineAt(|pre|);
    assert line[|pre| + |d.line.value|..] == body;
  }

  /** A block comment closed on its own line yields its exact interior as one terminated part,
      and the rest of the line after the closer is scanned again. */
  lemma OneLineBlock(lang: Language, lines: seq<string>, k: nat, pre: string, body: string, post: string)
    requires k < |lines| && Delims(lang).open.Some?
    requires var line := pre + Delims(lang).open.value + body + Delims(lang).close + post;
             forall j :: 0 <= j < |pre| ==> !OccursAt(line, Delims(lang).open.value, j)
    requires var line := pre + Delims(lang).open.value + body + Delims(lang).close + post;
             Delims(lang).line.Some? ==> forall j :: 0 <= j <= |pre| ==> !OccursAt(line, Delims(lang).line.value, j)
    requires var after := body + Delims(lang).close + post;
             forall j :: 0 <= j < |body| ==> !OccursAt(after, Delims(lang).close, j)
    ensures LexLine(lang, lines, k, pre + Delims(lang).open.value + body + Delims(lang).close + post) ==
              [CommentPart(k + 1, body, true)] + LexLine(lang, lines, k, post)
  {
    var d := Delims(lang);
    var after := body + d.close + post;
    assert pre + d.open.value + body + d.close + post == pre + d.open.value + after;
    OpenerFirst(lang, lines, k, pre, after);
    CloserFirst(lang, lines, k, body, post);
  }

  /** A line whose first opener is the block opener after `pre` goes on with the text after it. */
  lemma OpenerFirst(lang: Language, lines: seq<string>, k: nat, pre: string, after: string)
    requires k < |lines| && Delims(lang).open.Some?
    requires var line := pre + Delims(lang).open.value + after;
             forall j :: 0 <= j < |pre| ==> !OccursAt(line, Delims(lang).open.value, j)
    requires var line := pre + Delims(lang).open.value + after;
             Delims(lang).line.Some? ==> forall j :: 0 <= j <= |pre| ==> !OccursAt(line, Delims(lang).line.value, j)
    ensures LexLine(lang, lines, k, pre + Delims(lang).open.value + after) == BlockOpen(lang, lines, k, after)
  {
    var d := Delims(lang);
    var line := pre + d.open.value + after;
    assert line[|pre|..|pre| + |d.open.value|] == d.open.value;
    IndexOfFirst(line, d.open.value, |pre|);
    assert FirstOpener(d, line) == BlockAt(|pre|);
    LexLineStep(lang, lines, k, line);
    assert line[|pre| + |d.open.value|..] == after;
  }

  /** Text after a block opener whose first closer follows `body` yields `body` as a terminated
      part, and scanning resumes after the closer. */
  lemma CloserFirst(lang: Language, lines: seq<string>, k: nat, body: string, post: string)
    requires k < |lines| && Delims(lang).open.Some?
    requires var after := body + Delims(lang).close + post;
             forall j :: 0 <= j < |body| ==> !OccursAt(after, Delims(lang).close, j)
    ensures BlockOpen(lang, lines, k, body + Delims(lang).close + post) ==
              [CommentPart(k + 1, body, true)] + LexLine(lang, lines, k, post)
  {
    var d := Delims(lang);
    var after := body + d.close + post;
    assert after[|body|..|body| + |d.close|] == d.close;
    IndexOfFirst(after, d.close, |body|);
    BlockOpenStep(lang, lines, k, after);
    assert after[..|body|] == body;
    assert after[|body| + |d.close|..] == post;
  }


  /** The parts of the lines `j` to `m - 1` inside an unclosed block: each stripped and
      unterminated. */
  function InsideBlock(lines: seq<string>, j: nat, m: nat): (r: seq<CommentPart>)
    requires j <= m <= |lines|
    ensures |r| == m - j
    ensures forall i :: 0 <= i < m - j ==> r[i] == CommentPart(j + i + 1, Strip(lines[j + i]), false)
  {
    seq(m - j, i requires 0 <= i < m - j => CommentPart(j + i + 1, Strip(lines[j + i]), false))
  }

  lemma InsideBlockCons(lines: seq<string>, j: nat, m: nat)
    requires j < m <= |lines|
    ensures InsideBlock(lines, j, m) == [CommentPart(j + 1, Strip(lines[j]), false)] + InsideBlock(lines, j + 1, m)
  {
  }

  /** Inside a block comment, each line without the closer is one stripped, unterminated part. */
  lemma {:induction false} BlockLines(lang: Language, lines: seq<string>, j: nat, m: nat)
    requires j <= m <= |lines|
    requires forall i :: j <= i < m ==> IndexOf(lines[i], Delims(lang).close).None?
    ensures BlockCont(lang, lines, j) == InsideBlock(lines, j, m) + BlockCont(lang, lines, m)
    decreases m - j
  {
    if j < m {
      BlockLines(lang, lines, j + 1, m);
      var head := CommentPart(j + 1, Strip(lines[j]), false);
      assert BlockCont(lang, lines, j) == [head] + BlockCont(lang, lines, j + 1);
      InsideBlockCons(lines, j, m);
      AppendAssociative([head], InsideBlock(lines, j + 1, m), BlockCont(lang, lines, m));
    } else {
      assert InsideBlock(lines, j, m) == [];
    }
  }

  /** Inside a block comment, the lines up to the one holding the closer (line `m`) are stripped
      unterminated parts; the closing line yields its unstripped text before the closer as a
      terminated part and is scanned again after it. */
  lemma BlockCloses(lang: Language, lines: seq<string>, j: nat, m: nat)
    requires j <= m < |lines|
    requires forall i :: j <= i < m ==> IndexOf(lines[i], Delims(lang).close).None?
    requires IndexOf(lines[m], Delims(lang).close).Some?
    ensures var e := IndexOf(lines[m], Delims(lang).close).value;
            BlockCont(lang, lines, j) ==
              InsideBlock(lines, j, m) + ([CommentPart(m + 1, lines[m][..e], true)] +
              LexLine(lang, lines, m, lines[m][e + |Delims(lang).close|..]))
  {
    BlockLines(lang, lines, j, m);
  }

  /** A block comment that is never closed runs to the end of the file, which just ends it. */
  lemma BlockToEnd(lang: Language, lines: seq<string>, j: nat)
    requires j <= |lines|
    requires forall i :: j <= i < |lines| ==> IndexOf(lines[i], Delims(lang).close).None?
    ensures BlockCont(lang, lines, j) == InsideBlock(lines, j, |lines|)
  {
    BlockLines(lang, lines, j, |lines|);
    assert BlockCont(lang, lines, |lines|) == [];
  }

  /** The Ruby, Perl and YAML line-comment opener is not `#`: a `#` comment yields nothing. */
  lemma HashIsNotAnOpener()
    ensures LexFrom(Ruby, ["# hylite a: b\n"], 0) == []
  {
    var d := Delims(Ruby);
    var l1 := "# hylite a: b\n";
    assert '\\' !in l1;
    forall j | 0 <= j ensures !OccursAt(l1, d.line.value, j) {
      if j + 4 <= |l1| {
        assert l1[j..j + 4][0] == l1[j] != d.line.value[0];
      }
    }
    assert FirstOpener(d, l1) == NoComment;
    assert LexLine(Ruby, [l1], 0, l1) == LexFrom(Ruby, [l1], 1);
  }

  /** The four characters `\x23` do open a Ruby line comment. */
  lemma BackslashX23IsTheOpener()
    ensures LexFrom(Ruby, ["x \\x23 hylite a: b\n"], 0) == [CommentPart(1, "hylite a: b", true)]
  {
    var d := Delims(Ruby);
    var line := "x \\x23 hylite a: b\n";
    assert "x " + d.line.value + " hylite a: b\n" == line;
    forall j | 0 <= j < 2 ensures !OccursAt(line, d.line.value, j) {
      assert line[j] != d.line.value[0];
    }
    LineComment(Ruby, [line], 0, "x ", " hylite a: b\n");
    StripExample();
    assert LexFrom(Ruby, [line], 1) == [];
  }

  lemma StripExample()
    ensures Strip(" hylite a: b\n") == "hylite a: b"
  {
    var s := " hylite a: b\n";
    assert |s| == 13;
    assert SpaceEnd(s, 1) == 1 by { assert !IsStripSpace(s[1]); }
    assert SpaceEnd(s, 0) == 1 by { assert IsStripSpace(s[0]); }
    assert SpaceStart(s, 12) == 12 by { assert !IsStripSpace(s[11]); }
    assert SpaceStart(s, 13) == 12 by { assert IsStripSpace(s[12]); }
    assert s[1..12] == "hylite a: b";
  }

  // ---------------------------------------------------------------------------------------------
  // one step at a time, as the scanner takes them

  /** What one pass of the `while line` loop does with `rest`. */
  lemma LexLineStep(lang: Language, lines: seq<string>, k: nat, rest: string)
    requires k < |lines|
    ensures var o := FirstOpener(Delims(lang), rest);
            rest == [] || o.NoComment? ==> LexLine(lang, lines, k, rest) == LexFrom(lang, lines, k + 1)
    ensures var o := FirstOpener(Delims(lang), rest);
            rest != [] && o.LineAt? ==>
              LexLine(lang, lines, k, rest) ==
                [CommentPart(k + 1, Strip(rest[o.pos + |Delims(lang).line.value|..]), true)] + LexFrom(lang, lines, k + 1)
    ensures var o := FirstOpener(Delims(lang), rest);
            rest != [] && o.BlockAt? ==>
              LexLine(lang, lines, k, rest) == BlockOpen(lang, lines, k, rest[o.pos + |Delims(lang).open.value|..])
  {
  }

  /** What the rest of a line after a block opener yields. */
  lemma BlockOpenStep(lang: Language, lines: seq<string>, k: nat, after: string)
    requires Delims(lang).open.Some? && k < |lines|
    ensures var e := IndexOf(after, Delims(lang).close);
            e.Some? ==>
              BlockOpen(lang, lines, k, after) ==
                [CommentPart(k + 1, after[..e.value], true)] + LexLine(lang, lines, k, after[e.value + |Delims(lang).close|..])
    ensures IndexOf(after, Delims(lang).close).None? ==>
              BlockOpen(lang, lines, k, after) == [CommentPart(k + 1, after, false)] + BlockCont(lang, lines, k + 1)
  {
  }

  /** What one line inside a block comment yields. */
  lemma BlockContStep(lang: Language, lines: seq<string>, j: nat)
    requires j <= |lines|
    ensures j == |lines| ==> BlockCont(lang, lines, j) == []
    ensures j < |lines| && IndexOf(lines[j], Delims(lang).close).Some? ==>
              var e := IndexOf(lines[j], Delims(lang).close).value;
              BlockCont(lang, lines, j) ==
                [CommentPart(j + 1, lines[j][..e], true)] + LexLine(lang, lines, j, lines[j][e + |Delims(lang).close|..])
    ensures j < |lines| && IndexOf(lines[j], Delims(lang).close).None? ==>
              BlockCont(lang, lines, j) == [CommentPart(j + 1, Strip(lines[j]), false)] + BlockCont(lang, lines, j + 1)
  {
  }

  /** The parts from line `k` on: none at the end of the file, otherwise those of line `k`. */
  lemma LexStep(lang: Language, lines: seq<string>, k: nat)
    requires k <= |lines|
    ensures k == |lines| ==> Lex(lang, lines, k) == []
    ensures k < |lines| && lang == Text ==>
              Lex(lang, lines, k) == [CommentPart(k + 1, Strip(lines[k]), false)] + Lex(lang, lines, k + 1)
    ensures k < |lines| && lang != Text ==> Lex(lang, lines, k) == LexLine(lang, lines, k, lines[k])
  {
  }

  /** A continued block closes on line `j`: with the parts already delivered in front, the
      closing part follows them and the rest of the line is lexed on. */
  lemma BlockContCloses(lang: Language, lines: seq<string>, j: nat, buf: seq<CommentPart>,
                        n: nat, line: string, close: string, e: nat)
    requires j < |lines| && line == lines[j] && n == j + 1
    requires close == Delims(lang).close && IndexOf(line, close) == Some(e)
    ensures buf + BlockCont(lang, lines, j) ==
              (buf + [CommentPart(n, line[..e], true)]) + LexLine(lang, lines, j, line[e + |close|..])
  {
    ClosedOnContLine(lang, lines, j, line, close, e);
    AppendAssociative(buf, [CommentPart(n, line[..e], true)], LexLine(lang, lines, j, line[e + |close|..]));
  }

  /** A continued block stays open on line `j`: the whole line, stripped, is one more part. */
  lemma BlockContGoesOn(lang: Language, lines: seq<string>, j: nat, buf: seq<CommentPart>,
                        n: nat, line: string, close: string)
    requires j < |lines| && line == lines[j] && n == j + 1
    requires close == Delims(lang).close && IndexOf(line, close).None?
    ensures buf + BlockCont(lang, lines, j) ==
              (buf + [CommentPart(n, Strip(line), false)]) + BlockCont(lang, lines, j + 1)
  {
    BlockContStep(lang, lines, j);
    AppendAssociative(buf, [CommentPart(n, Strip(line), false)], BlockCont(lang, lines, j + 1));
  }

  /** A piece of line with no opener yields nothing more. */
  lemma LineHasNoComment(lang: Language, lines: seq<string>, k: nat, rest: string, d: Delimiters)
    requires k < |lines| && d == Delims(lang) && FirstOpener(d, rest).NoComment?
    ensures LexLine(lang, lines, k, rest) == LexLine(lang, lines, k, [])
  {
  }

  /** A line comment first: the stripped rest of the line is one terminated part, after the
      parts already delivered, and the line is done. */
  lemma LineCommentFirst(lang: Language, lines: seq<string>, k: nat, rest: string, d: Delimiters, i: nat)
    requires k < |lines| && d == Delims(lang)
    requires rest != [] && FirstOpener(d, rest) == LineAt(i)
    ensures d.line.Some? && i + |d.line.value| <= |rest|
    ensures LexLine(lang, lines, k, rest) ==
              [CommentPart(k + 1, Strip(rest[i + |d.line.value|..]), true)] + LexLine(lang, lines, k, [])
  {
    LexLineStep(lang, lines, k, rest);
    LexLineStep(lang, lines, k, []);
  }


  /** A block comment first: the line goes on as the rest after the opener. */
  lemma BlockCommentFirst(lang: Language, lines: seq<string>, k: nat, rest: string, d: Delimiters, i: nat)
    requires k < |lines| && d == Delims(lang)
    requires rest != [] && FirstOpener(d, rest) == BlockAt(i)
    ensures d.open.Some? && i + |d.open.value| <= |rest| && |d.open.value| > 0
    ensures LexLine(lang, lines, k, rest) == BlockOpen(lang, lines, k, rest[i + |d.open.value|..])
  {
    LexLineStep(lang, lines, k, rest);
  }

  /** A block comment closed on the line it opens on: the text up to the closer is one
      terminated part, after the parts already delivered, and the line goes on after the
      closer. */


  /** A block comment left open at the end of the line it opens on: the rest of the line is one
      unterminated part, and the block continues on the next line. */
  lemma BlockOpenAtEnd(lang: Language, lines: seq<string>, k: nat, buf: seq<CommentPart>,
                       n: nat, after: string, close: string)
    requires k < |lines| && n == k + 1
    requires Delims(lang).open.Some? && close == Delims(lang).close && IndexOf(after, close).None?
    ensures buf + BlockOpen(lang, lines, k, after) ==
              (buf + [CommentPart(n, after, false)]) + BlockCont(lang, lines, k + 1)
  {
    BlockOpenStep(lang, lines, k, after);
    AppendAssociative(buf, [CommentPart(n, after, false)], BlockCont(lang, lines, k + 1));
  }

  /** A block comment closed on the line it opens on, the closer at `e` in `after`: its text is
      one terminated part, and the line goes on after the closer. */
  lemma BlockOpenCloses(lang: Language, lines: seq<string>, k: nat, buf: seq<CommentPart>,
                        n: nat, after: string, close: string, e: nat)
    requires k < |lines| && n == k + 1
    requires Delims(lang).open.Some? && close == Delims(lang).close && IndexOf(after, close) == Some(e)
    ensures buf + BlockOpen(lang, lines, k, after) ==
              (buf + [CommentPart(n, after[..e], true)]) + LexLine(lang, lines, k, after[e + |close|..])
  {
    ClosedOnOpenLine(lang, lines, k, after, close, e);
    AppendAssociative(buf, [CommentPart(n, after[..e], true)], LexLine(lang, lines, k, after[e + |close|..]));
  }

  /** A type with block comments has a closer. */
  lemma CloserNotEmpty(lang: Language)
    requires Delims(lang).open.Some?
    ensures |Delims(lang).close| > 0
  {
  }
}

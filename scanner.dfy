/** `Scanner` of lib/rb/esus/hylib.rb: the object that reads one file, cuts its comments into
    comment parts, cuts those into writings of hylites and parses each writing into a hylite
    set. Its buffers and line counter are fields updated in place; every method is proved to
    deliver the streams `Lexer.Lex` and `Extractor.ExtractAll` describe, and `FindAllHylites` to
    leave the set as `ScanFile` says. The open file is modelled as the sequence of its lines, as
    `gets` returns them, and the number of lines read so far. */
module Scanners {
  import opened Strings
  import opened Lexer
  import opened Extractor
  import opened Entity
  import opened Parsing
  import opened HyliteSets

  // ---------------------------------------------------------------------------------------------
  // what a scan does to a hylite set

  /** `string.split(/:/)` has a first field, the name section, exactly when the string has a
      character other than `:`; otherwise `name` is nil and `name.sub` raises. */
  predicate Splittable(s: string)
  {
    exists i :: 0 <= i < |s| && s[i] != ':'
  }

  /** The body of the loop of `find_all_hylites` for one writing: it is parsed into `reg` and
      its location (`file`, its first line) is added to the hylite it names. */
  function ParseOne(reg: Registry, file: string, hp: HylitePart): (r: Registry)
    requires Valid(reg) && Splittable(hp.text)
    ensures Valid(r)
  {
    ParseKeepsValid(reg, hp.text);
    var (reg1, h) := Parsing.Parse(reg, hp.text);
    AddLocationKeepsValid(reg1, h, Location(file, hp.line));
    AddLocation(reg1, h, Location(file, hp.line))
  }

  /** The loop of `find_all_hylites`: each writing in turn is parsed. A writing with no name
      section raises, which ends the scan with what was added so far; the flag says whether the
      scan got through. */
  function ParseParts(reg: Registry, file: string, hps: seq<HylitePart>): (r: (Registry, bool))
    requires Valid(reg)
    ensures Valid(r.0)
    ensures hps == [] ==> r == (reg, true)
    decreases |hps|
  {
    if hps == [] then (reg, true)
    else if !Splittable(hps[0].text) then (reg, false)
    else ParseParts(ParseOne(reg, file, hps[0]), file, hps[1..])
  }

  /** Every writing has a name section. */
  predicate AllSplittable(hps: seq<HylitePart>)
    decreases |hps|
  {
    hps == [] || (Splittable(hps[0].text) && AllSplittable(hps[1..]))
  }

  lemma {:induction false} AllSplittableEach(hps: seq<HylitePart>)
    ensures AllSplittable(hps) <==> forall i :: 0 <= i < |hps| ==> Splittable(hps[i].text)
    decreases |hps|
  {
    if hps != [] {
      AllSplittableEach(hps[1..]);
      assert forall i :: 1 <= i < |hps| ==> hps[i] == hps[1..][i - 1];
    }
  }

  /** The scan gets through exactly when every writing has a name section. */
  lemma {:induction false} ParsePartsFails(reg: Registry, file: string, hps: seq<HylitePart>)
    requires Valid(reg)
    ensures ParseParts(reg, file, hps).1 <==> AllSplittable(hps)
    decreases |hps|
  {
    if hps != [] && Splittable(hps[0].text) {
      ParsePartsFails(ParseOne(reg, file, hps[0]), file, hps[1..]);
    }
  }

  /** One writing more: parsed when it has a name section, the end of the scan otherwise. */
  lemma ParsePartsStep(reg: Registry, file: string, w: HylitePart, rest: seq<HylitePart>)
    requires Valid(reg)
    ensures !Splittable(w.text) ==> ParseParts(reg, file, [w] + rest) == (reg, false)
    ensures Splittable(w.text) ==> ParseParts(reg, file, [w] + rest) == ParseParts(ParseOne(reg, file, w), file, rest)
  {
    ConsParts(w, rest);
  }

  /** `Scanner.new(file).find_all_hylites(set)` on a file whose lines are `lines`: the hylite set
      it leaves and whether it got through. */
  function ScanFile(reg: Registry, file: string, lines: seq<string>): (r: (Registry, bool))
    requires Valid(reg)
    ensures Valid(r.0)
  {
    ParseParts(reg, file, Writings(file, lines))
  }

  /** Every writing of a hylite in the file `file` whose lines are `lines`, in order. */
  function Writings(file: string, lines: seq<string>): seq<HylitePart>
  {
    var lang := DetermineType(file);
    ExtractAll(lang, Lex(lang, lines, 0))
  }

  /** A writing that starts with the trigger has a name section, so among writings that start
      with it or are empty, exactly the empty ones raise. */
  lemma TriggeredSplittable(hps: seq<HylitePart>)
    requires Triggered(hps)
    ensures AllSplittable(hps) <==> forall i :: 0 <= i < |hps| ==> hps[i].text != []
  {
    AllSplittableEach(hps);
    forall i | 0 <= i < |hps| ensures Splittable(hps[i].text) <==> hps[i].text != [] {
      var t := hps[i].text;
      if t != [] {
        assert IsPrefix("hylite", t);
        assert t[..6][0] == 'h';
        assert t[0] != ':';
      }
    }
  }

  /** Every writing the extractor yields starts with the trigger or is empty, so a scan fails
      exactly when the file holds an empty writing (a closer before its trigger). */
  lemma ScanFailsOnEmptyWriting(reg: Registry, file: string, lines: seq<string>)
    requires Valid(reg)
    ensures ScanFile(reg, file, lines).1 <==> forall i :: 0 <= i < |Writings(file, lines)| ==> Writings(file, lines)[i].text != []
  {
    var lang := DetermineType(file);
    var hps := Writings(file, lines);
    ExtractAllTriggered(lang, Lex(lang, lines, 0));
    ParsePartsFails(reg, file, hps);
    TriggeredSplittable(hps);
  }

  // ---------------------------------------------------------------------------------------------
  // the scanner

  class Scanner {
    /** `@file`: the name of the file scanned. */
    const file: string
    /** `@language`: the file type, `Text` until the scan determines it. */
    var language: Language
    /** The open file: its lines as `gets` returns them, each with its line feed. */
    var lines: seq<string>
    /** How many lines `gets` has returned. */
    var cursor: nat
    /** `@line_no`: the number of the last line read; it also counts the `gets` that met the end
        of the file in a file with comments. */
    var lineNo: nat
    /** `@comment_part_buf`. */
    var commentBuf: seq<CommentPart>
    /** `@hy_part_buf`. */
    var hyBuf: seq<HylitePart>

    /** The line counter agrees with the lines read as long as the file has not ended. */
    ghost predicate Valid()
      reads this
    {
      cursor <= |lines| && cursor <= lineNo && (cursor < |lines| ==> lineNo == cursor)
    }

    /** The comment parts still to be delivered: the buffered ones, then those of the unread
        lines. */
    function Stream(): seq<CommentPart>
      reads this
      requires cursor <= |lines|
    {
      commentBuf + Lex(language, lines, cursor)
    }

    /** The writings still to be delivered: the buffered ones, then those of the comment parts
        still to come. */
    function Pending(): seq<HylitePart>
      reads this
      requires cursor <= |lines|
    {
      hyBuf + ExtractAll(language, Stream())
    }

    /** The comment parts still to come after a step inside a line: those of the rest of the
        file when the file ended inside a block comment, and otherwise those of `next`, what is
        left of the current line, and of the lines after it. */
    ghost function Ahead(eof: bool, next: string): seq<CommentPart>
      reads this
      requires Valid() && (eof || 0 < cursor)
    {
      if eof then LexFrom(language, lines, cursor) else LexLine(language, lines, cursor - 1, next)
    }

    /** `Scanner.new(file)`: type `Text`, empty buffers, line counter at zero, no file open. */
    constructor (file: string)
      ensures this.file == file && language == Text && lines == [] && cursor == 0 && lineNo == 0
      ensures commentBuf == [] && hyBuf == [] && Valid()
    {
      this.file := file;
      language := Text;
      lines := [];
      cursor := 0;
      lineNo := 0;
      commentBuf := [];
      hyBuf := [];
    }

    /** `file.gets`: the next line, or nil at the end of the file. */
    method Gets() returns (line: Option<string>)
      requires cursor <= |lines|
      modifies this
      ensures old(cursor) < |lines| ==> line == Some(lines[old(cursor)]) && cursor == old(cursor) + 1
      ensures old(cursor) == |lines| ==> line == None && cursor == old(cursor)
      ensures language == old(language) && lines == old(lines) && lineNo == old(lineNo)
      ensures commentBuf == old(commentBuf) && hyBuf == old(hyBuf)
    {
      if cursor < |lines| {
        line := Some(lines[cursor]);
        cursor := cursor + 1;
      } else {
        line := None;
      }
    }

    // -------------------------------------------------------------------------------------------
    // fill_comment_part_buf

    /** The comment parts still to come inside a block comment after a line of it: those of
        `next`, what is left of the line after the closer, and of the lines after it; or, when
        the line did not close the block, those of the following lines, still inside it. */
    ghost function InBlock(next: Option<string>): seq<CommentPart>
      reads this
      requires Valid() && 0 < cursor
    {
      if next.Some? then LexLine(language, lines, cursor - 1, next.value) else BlockCont(language, lines, cursor)
    }

    /** One turn of the `while true` loop of a block comment left open: a line is read; at the
        end of the file `eof` is answered; otherwise the line is taken as a line of the block. */
    method ContinueBlockLine() returns (eof: bool, next: Option<string>)
      requires Valid() && language != Text && lineNo == cursor
      modifies this
      ensures Valid() && language == old(language) && lines == old(lines) && hyBuf == old(hyBuf)
      ensures eof <==> old(cursor) == |lines|
      ensures eof ==> cursor == old(cursor) && commentBuf == old(commentBuf) && BlockCont(language, lines, cursor) == []
      ensures !eof ==> cursor == old(cursor) + 1 && lineNo == cursor
      ensures !eof ==> old(commentBuf) + BlockCont(language, lines, old(cursor)) == commentBuf + InBlock(next)
    {
      var line := Gets();
      lineNo := lineNo + 1;
      if line.None? {
        BlockContStep(language, lines, cursor);
        return true, None;
      }
      next := BlockLine(line.value);
      return false, next;
    }

    /** A line `l` read inside a block comment: a line holding the closer gives a terminated part
        and the rest of the line is answered in `next`; any other line is one more unterminated
        part, stripped. */
    method BlockLine(l: string) returns (next: Option<string>)
      requires Valid() && language != Text && 0 < cursor && lineNo == cursor && l == lines[cursor - 1]
      modifies this
      ensures Valid() && language == old(language) && lines == old(lines) && hyBuf == old(hyBuf)
      ensures cursor == old(cursor) && lineNo == old(lineNo)
      ensures old(commentBuf) + BlockCont(language, lines, cursor - 1) == commentBuf + InBlock(next)
    {
      var e := IndexOf(l, Delims(language).close);
      if e.Some? {
        var rest := ClosingLine(l, e.value);
        return Some(rest);
      }
      BlockContGoesOn(language, lines, cursor - 1, commentBuf, lineNo, l, Delims(language).close);
      commentBuf := commentBuf + [CommentPart(lineNo, Strip(l), false)];
      return None;
    }

    /** A line `l` read inside a block comment holding the closer at `e`: the text before it is a
        terminated part, and the rest of the line is answered. */
    method ClosingLine(l: string, e: nat) returns (rest: string)
      requires Valid() && 0 < cursor && lineNo == cursor && l == lines[cursor - 1]
      requires IndexOf(l, Delims(language).close) == Some(e)
      modifies this
      ensures Valid() && language == old(language) && lines == old(lines) && hyBuf == old(hyBuf)
      ensures cursor == old(cursor) && lineNo == old(lineNo)
      ensures old(commentBuf) + BlockCont(language, lines, cursor - 1) == commentBuf + LexLine(language, lines, cursor - 1, rest)
    {
      var close := Delims(language).close;
      BlockContCloses(language, lines, cursor - 1, commentBuf, lineNo, l, close, e);
      commentBuf := commentBuf + [CommentPart(lineNo, l[..e], true)];
      rest := l[e + |close|..];
    }

    /** The `while true` loop of a block comment left open: lines are read until one holds the
        closer (what follows the closer is answered, to be scanned on) or the file ends. */
    method ContinueBlock() returns (next: Option<string>)
      requires Valid() && language != Text && lineNo == cursor
      modifies this
      ensures Valid() && language == old(language) && lines == old(lines) && hyBuf == old(hyBuf)
      ensures next.None? ==> cursor == |lines| && commentBuf == old(commentBuf) + BlockCont(language, lines, old(cursor))
      ensures next.Some? ==> old(cursor) < cursor && lineNo == cursor
      ensures next.Some? ==> old(commentBuf) + BlockCont(language, lines, old(cursor)) == commentBuf + InBlock(next)
    {
      while true
        invariant Valid() && language == old(language) && lines == old(lines) && hyBuf == old(hyBuf)
        invariant lineNo == cursor && old(cursor) <= cursor
        invariant old(commentBuf) + BlockCont(language, lines, old(cursor)) == commentBuf + BlockCont(language, lines, cursor)
        decreases |lines| - cursor
      {
        var eof;
        eof, next := ContinueBlockLine();
        if eof {
          return None;
        }
        if next.Some? {
          return;
        }
      }
    }

    /** The block comment that comes first in what is left of the line, `after` being the text
        after its opener: closed on the same line, its text is one terminated part and the line
        goes on after the closer; left open, the rest of the line is one unterminated part and
        the following lines are read until the closer or the end of the file. */
    method BlockComment(after: string) returns (eof: bool, next: string)
      requires Valid() && language != Text && Delims(language).open.Some? && 0 < cursor && lineNo == cursor
      modifies this
      ensures Valid() && language == old(language) && lines == old(lines) && hyBuf == old(hyBuf)
      ensures old(cursor) <= cursor && (eof ==> cursor == |lines|)
      ensures !eof ==> 0 < cursor && lineNo == cursor && (cursor == old(cursor) ==> |next| < |after|)
      ensures commentBuf + Ahead(eof, next) == old(commentBuf) + BlockOpen(language, lines, old(cursor) - 1, after)
    {
      var e := IndexOf(after, Delims(language).close);
      if e.Some? {
        next := BlockClosed(after, e.value);
        return false, next;
      }
      eof, next := BlockLeftOpen(after);
    }

    /** A block comment closed on the line it opens on, the closer at `e` in `after`: its text is
        one terminated part, and the line goes on after the closer. */
    method BlockClosed(after: string, e: nat) returns (next: string)
      requires Valid() && language != Text && Delims(language).open.Some? && 0 < cursor && lineNo == cursor
      requires IndexOf(after, Delims(language).close) == Some(e)
      modifies this
      ensures Valid() && language == old(language) && lines == old(lines) && hyBuf == old(hyBuf)
      ensures cursor == old(cursor) && lineNo == old(lineNo) && |next| < |after|
      ensures commentBuf + LexLine(language, lines, cursor - 1, next) == old(commentBuf) + BlockOpen(language, lines, cursor - 1, after)
    {
      var close := Delims(language).close;
      CloserNotEmpty(language);
      next := after[e + |close|..];
      var part := CommentPart(lineNo, after[..e], true);
      BlockOpenCloses(language, lines, cursor - 1, commentBuf, lineNo, after, close, e);
      commentBuf := commentBuf + [part];
    }

    /** A block comment not closed on the line it opens on: the rest of the line is one
        unterminated part, and the following lines are read until the closer or the end of the
        file. */
    method BlockLeftOpen(after: string) returns (eof: bool, next: string)
      requires Valid() && language != Text && Delims(language).open.Some? && 0 < cursor && lineNo == cursor
      requires IndexOf(after, Delims(language).close).None?
      modifies this
      ensures Valid() && language == old(language) && lines == old(lines) && hyBuf == old(hyBuf)
      ensures old(cursor) <= cursor && (eof ==> cursor == |lines|)
      ensures !eof ==> old(cursor) < cursor && lineNo == cursor
      ensures commentBuf + Ahead(eof, next) == old(commentBuf) + BlockOpen(language, lines, old(cursor) - 1, after)
    {
      BlockOpenAtEnd(language, lines, cursor - 1, commentBuf, lineNo, after, Delims(language).close);
      commentBuf := commentBuf + [CommentPart(lineNo, after, false)];
      var more := ContinueBlock();
      if more.None? {
        return true, [];
      }
      return false, more.value;
    }

    /** A line comment comes first in what is left of the line, opening at `i`: the stripped
        rest of the line is one terminated part, and the line is done. */
    method LineComment(rest: string, i: nat)
      requires Valid() && language != Text && 0 < cursor && lineNo == cursor
      requires rest != [] && FirstOpener(Delims(language), rest) == LineAt(i)
      modifies this
      ensures Valid() && language == old(language) && lines == old(lines) && hyBuf == old(hyBuf)
      ensures cursor == old(cursor) && lineNo == old(lineNo)
      ensures commentBuf + LexLine(language, lines, cursor - 1, []) == old(commentBuf) + LexLine(language, lines, cursor - 1, rest)
    {
      var d := Delims(language);
      LineCommentFirst(language, lines, cursor - 1, rest, d, i);
      var part := CommentPart(lineNo, Strip(rest[i + |d.line.value|..]), true);
      AppendAssociative(commentBuf, [part], LexLine(language, lines, cursor - 1, []));
      commentBuf := commentBuf + [part];
    }

    /** One turn of the `while line` loop: the first comment of what is left of the line is
        delivered, and what is left after it is answered; a block comment left open reads on
        through the following lines, and `eof` says whether the file ended inside it. */
    method ScanComment(rest: string) returns (eof: bool, next: string)
      requires Valid() && language != Text && 0 < cursor && lineNo == cursor && rest != []
      modifies this
      ensures Valid() && language == old(language) && lines == old(lines) && hyBuf == old(hyBuf)
      ensures old(cursor) <= cursor && (eof ==> cursor == |lines|)
      ensures !eof ==> 0 < cursor && lineNo == cursor && (cursor == old(cursor) ==> |next| < |rest|)
      ensures commentBuf + Ahead(eof, next) == old(commentBuf) + LexLine(language, lines, old(cursor) - 1, rest)
    {
      var d := Delims(language);
      match FirstOpener(d, rest)
      case NoComment =>
        LineHasNoComment(language, lines, cursor - 1, rest, d);
        return false, [];
      case LineAt(i) =>
        LineComment(rest, i);
        return false, [];
      case BlockAt(i) =>
        eof, next := BlockCommentAt(rest, i);
    }

    /** A block comment comes first in what is left of the line, opening at `i`. */
    method BlockCommentAt(rest: string, i: nat) returns (eof: bool, next: string)
      requires Valid() && language != Text && 0 < cursor && lineNo == cursor
      requires FirstOpener(Delims(language), rest) == BlockAt(i)
      modifies this
      ensures Valid() && language == old(language) && lines == old(lines) && hyBuf == old(hyBuf)
      ensures old(cursor) <= cursor && (eof ==> cursor == |lines|)
      ensures !eof ==> 0 < cursor && lineNo == cursor && (cursor == old(cursor) ==> |next| < |rest|)
      ensures commentBuf + Ahead(eof, next) == old(commentBuf) + LexLine(language, lines, old(cursor) - 1, rest)
    {
      var d := Delims(language);
      BlockCommentFirst(language, lines, cursor - 1, rest, d, i);
      eof, next := BlockComment(rest[i + |d.open.value|..]);
    }

    /** The `while line` loop for the line just read: every comment on it, and the lines of a
        block comment it opens; answers whether the file ended inside that block. */
    method ScanLine(first: string) returns (eof: bool)
      requires Valid() && language != Text && 0 < cursor && lineNo == cursor
      modifies this
      ensures Valid() && language == old(language) && lines == old(lines) && hyBuf == old(hyBuf)
      ensures old(cursor) <= cursor && (eof ==> cursor == |lines|)
      ensures commentBuf + LexFrom(language, lines, cursor) == old(commentBuf) + LexLine(language, lines, old(cursor) - 1, first)
    {
      var rest := first;
      while rest != []
        invariant Valid() && language == old(language) && lines == old(lines) && hyBuf == old(hyBuf)
        invariant old(cursor) <= cursor && 0 < cursor && lineNo == cursor
        invariant commentBuf + LexLine(language, lines, cursor - 1, rest) == old(commentBuf) + LexLine(language, lines, old(cursor) - 1, first)
        decreases |lines| - cursor, |rest|
      {
        eof, rest := ScanComment(rest);
        if eof {
          return;
        }
      }
      LexLineStep(language, lines, cursor - 1, []);
      return false;
    }

    /** `fill_comment_part_buf(file)`: in a `Text` file one more line, stripped and unterminated;
        otherwise lines are read until a comment part turns up or the file ends. The stream of
        comment parts still to come is unchanged. */
    method FillCommentPartBuf()
      requires Valid()
      modifies this
      ensures Valid() && language == old(language) && lines == old(lines) && hyBuf == old(hyBuf)
      ensures Stream() == old(Stream())
      ensures commentBuf == [] ==> cursor == |lines|
    {
      if language == Text {
        ghost var buf := commentBuf;
        LexStep(language, lines, cursor);
        var line := Gets();
        if line.Some? {
          lineNo := lineNo + 1;
          var c := CommentPart(lineNo, Strip(line.value), false);
          commentBuf := commentBuf + [c];
          AppendAssociative(buf, [c], Lex(language, lines, cursor));
        }
        return;
      }
      while commentBuf == []
        invariant Valid() && language == old(language) && lines == old(lines) && hyBuf == old(hyBuf)
        invariant Stream() == old(Stream())
        decreases |lines| - cursor
      {
        LexStep(language, lines, cursor);
        var line := Gets();
        lineNo := lineNo + 1;
        if line.None? {
          return;
        }
        var eof := ScanLine(line.value);
        if eof {
          return;
        }
      }
    }

    /** `next_comment_part(file)`: the first comment part still to come, or nil when there is
        none. */
    method NextCommentPart() returns (part: Option<CommentPart>)
      requires Valid()
      modifies this
      ensures Valid() && language == old(language) && lines == old(lines) && hyBuf == old(hyBuf)
      ensures part.None? ==> old(Stream()) == [] && Stream() == []
      ensures part.Some? ==> old(Stream()) == [part.value] + Stream()
    {
      if commentBuf == [] {
        FillCommentPartBuf();
      }
      if commentBuf == [] {
        LexStep(language, lines, cursor);
        return None;
      }
      ghost var rest := Lex(language, lines, cursor);
      part := Some(commentBuf[0]);
      commentBuf := commentBuf[1..];
      AppendAssociative([part.value], commentBuf, rest);
    }

    // -------------------------------------------------------------------------------------------
    // next_hylite_part

    /** The ungrouped writing `hp` in a comment that goes on: following parts are appended after
        a space up to and including one that ends its comment, or the end of the file. */
    method ContinueWriting(hp0: HylitePart)
      requires Valid()
      modifies this
      ensures Valid() && language == old(language) && lines == old(lines)
      ensures |Stream()| <= |old(Stream())|
      ensures hyBuf + ExtractAll(language, Stream()) == old(hyBuf) + Continue(language, hp0, old(Stream()))
    {
      var hp := hp0;
      var more := true;
      while more
        invariant Valid() && language == old(language) && lines == old(lines) && hyBuf == old(hyBuf)
        invariant |Stream()| <= |old(Stream())|
        invariant more ==> Continue(language, hp, Stream()) == Continue(language, hp0, old(Stream()))
        invariant !more ==> [hp] + ExtractAll(language, Stream()) == Continue(language, hp0, old(Stream()))
        decreases |Stream()| + (if more then 1 else 0)
      {
        var part := NextCommentPart();
        if part.None? {
          assert Continue(language, hp, []) == [hp];
          more := false;
        } else {
          ContinueStep(language, hp, part.value, Stream());
          hp := HylitePart(hp.line, hp.text + " " + part.value.text);
          more := !part.value.terminated;
        }
      }
      AppendAssociative(old(hyBuf), [hp], ExtractAll(language, Stream()));
      hyBuf := hyBuf + [hp];
    }

    /** The grouped writing `hp` still open at the end of its part, with closer `g`: following
        parts are appended after a space until one holds the closer, one ends its comment, or
        the file ends. The rest of a part holding the closer is answered to be scanned on. */
    method GroupContinue(g: string, hp0: HylitePart) returns (next: Option<CommentPart>)
      requires Valid() && |g| > 0
      modifies this
      ensures Valid() && language == old(language) && lines == old(lines)
      ensures |Stream()| <= |old(Stream())|
      ensures next.None? ==> hyBuf + ExtractAll(language, Stream()) == old(hyBuf) + GroupCont(language, g, hp0, old(Stream()))
      ensures next.Some? ==>
                && |Stream()| < |old(Stream())|
                && hyBuf + Scan(language, next.value.line, next.value.text, next.value.terminated, Stream()) ==
                   old(hyBuf) + GroupCont(language, g, hp0, old(Stream()))
    {
      var hp := hp0;
      while true
        invariant Valid() && language == old(language) && lines == old(lines) && hyBuf == old(hyBuf)
        invariant |Stream()| <= |old(Stream())|
        invariant GroupCont(language, g, hp, Stream()) == GroupCont(language, g, hp0, old(Stream()))
        decreases |Stream()|
      {
        var part := NextCommentPart();
        if part.None? {
          assert GroupCont(language, g, hp, []) == [hp];
          hyBuf := hyBuf + [hp];
          return None;
        }
        var c := part.value;
        GroupContStep(language, g, hp, c, Stream());
        var q := IndexOf(c.text, g);
        if q.Some? {
          var w := HylitePart(hp.line, hp.text + " " + c.text[..q.value]);
          AppendAssociative(old(hyBuf), [w], Scan(language, c.line, c.text[q.value + 1..], c.terminated, Stream()));
          hyBuf := hyBuf + [w];
          return Some(CommentPart(c.line, c.text[q.value + 1..], c.terminated));
        }
        hp := HylitePart(hp.line, hp.text + " " + c.text);
        if c.terminated {
          AppendAssociative(old(hyBuf), [hp], ExtractAll(language, Stream()));
          hyBuf := hyBuf + [hp];
          return None;
        }
      }
    }

    /** The `while part` loop for one comment part: its writings are buffered, a writing that
        goes on into later parts consumes them, and the part holding a closer is scanned on. */
    method ScanPart(line0: nat, s0: string, term0: bool)
      requires Valid()
      modifies this
      ensures Valid() && language == old(language) && lines == old(lines)
      ensures |Stream()| <= |old(Stream())|
      ensures hyBuf + ExtractAll(language, Stream()) == old(hyBuf) + Scan(language, line0, s0, term0, old(Stream()))
    {
      var line, s, term := line0, s0, term0;
      while s != []
        invariant Valid() && language == old(language) && lines == old(lines)
        invariant |Stream()| <= |old(Stream())|
        invariant hyBuf + Scan(language, line, s, term, Stream()) == old(hyBuf) + Scan(language, line0, s0, term0, old(Stream()))
        decreases |Stream()|, |s|
      {
        line, s, term := ScanText(line, s, term);
      }
      ScanStep(language, line, [], term, Stream());
    }

    /** One turn of the `while part` loop on `s`, what is left of the part of line `line`: no
        trigger ends the part, a rejected trigger is skipped with the character after it, and an
        accepted one gives a writing. What is left to scan is answered. */
    method ScanText(line: nat, s: string, term: bool) returns (line': nat, s': string, term': bool)
      requires Valid() && s != []
      modifies this
      ensures Valid() && language == old(language) && lines == old(lines)
      ensures |Stream()| < |old(Stream())| || (|Stream()| == |old(Stream())| && |s'| < |s|)
      ensures hyBuf + Scan(language, line', s', term', Stream()) == old(hyBuf) + Scan(language, line, s, term, old(Stream()))
    {
      ScanStep(language, line, s, term, Stream());
      ScanStep(language, line, [], term, Stream());
      var found := IndexOf(s, "hylite");
      if found.None? {
        return line, [], term;
      }
      var p := found.value;
      if !Accepted(s, p) {
        return line, if p + 7 >= |s| then [] else s[p + 7..], term;
      }
      line', s', term' := ScanWriting(line, s, term, p);
    }

    /** An accepted trigger at `p`: grouped when an opener comes just before it. */
    method ScanWriting(line: nat, s: string, term: bool, p: nat) returns (line': nat, s': string, term': bool)
      requires Valid() && IndexOf(s, "hylite") == Some(p) && Accepted(s, p)
      modifies this
      ensures Valid() && language == old(language) && lines == old(lines)
      ensures |Stream()| < |old(Stream())| || (|Stream()| == |old(Stream())| && |s'| < |s|)
      ensures hyBuf + Scan(language, line', s', term', Stream()) == old(hyBuf) + Scan(language, line, s, term, old(Stream()))
    {
      var g := if p > 0 then Closer(s[p - 1]) else None;
      if g.None? {
        UngroupedWriting(line, s, term, p);
        return line, [], term;
      }
      line', s', term' := GroupedWriting(line, s, term, p, g.value);
    }

    /** An accepted trigger at `p` with no opener before it: the writing runs to the end of the
        part when the part ends its comment (or the file is `Text`), and into the following parts
        otherwise. Nothing is left of the part. */
    method UngroupedWriting(line: nat, s: string, term: bool, p: nat)
      requires Valid() && IndexOf(s, "hylite") == Some(p) && Accepted(s, p) && (p == 0 || Closer(s[p - 1]).None?)
      modifies this
      ensures Valid() && language == old(language) && lines == old(lines)
      ensures |Stream()| <= |old(Stream())|
      ensures hyBuf + Scan(language, line, [], term, Stream()) == old(hyBuf) + Scan(language, line, s, term, old(Stream()))
    {
      ScanUngrouped(language, line, s, term, Stream(), p);
      var w := HylitePart(line, s[p..]);
      if term || language == Text {
        ScanStep(language, line, [], term, Stream());
        AppendAssociative(hyBuf, [w], ExtractAll(language, Stream()));
        hyBuf := hyBuf + [w];
        return;
      }
      ContinueWriting(w);
      ScanStep(language, line, [], term, Stream());
    }

    /** An accepted trigger at `p` after an opener whose closer is `g`: a closer in the part ends
        the writing and the part is scanned on after it; otherwise the writing runs to the end of
        the part or into the following parts. */
    method GroupedWriting(line: nat, s: string, term: bool, p: nat, g: string) returns (line': nat, s': string, term': bool)
      requires Valid() && IndexOf(s, "hylite") == Some(p) && Accepted(s, p) && p > 0 && Closer(s[p - 1]) == Some(g)
      modifies this
      ensures Valid() && language == old(language) && lines == old(lines)
      ensures |Stream()| < |old(Stream())| || (|Stream()| == |old(Stream())| && |s'| < |s|)
      ensures hyBuf + Scan(language, line', s', term', Stream()) == old(hyBuf) + Scan(language, line, s, term, old(Stream()))
    {
      ScanGroups(language, line, s, term, Stream(), p);
      GroupedStep(language, line, s, p, g, term, Stream());
      var q := IndexOf(s, g);
      if q.Some? {
        var w := HylitePart(line, if q.value < p then [] else s[p..q.value]);
        AppendAssociative(hyBuf, [w], Scan(language, line, s[q.value + 1..], term, Stream()));
        hyBuf := hyBuf + [w];
        return line, s[q.value + 1..], term;
      }
      line', s', term' := GroupLeftOpen(line, s, term, p, g);
    }

    /** A grouped writing with no closer in its own part: it runs to the end of the part when the
        part ends its comment, and into the following parts otherwise. */
    method GroupLeftOpen(line: nat, s: string, term: bool, p: nat, g: string) returns (line': nat, s': string, term': bool)
      requires Valid() && p <= |s| && |g| > 0 && IndexOf(s, g).None?
      modifies this
      ensures Valid() && language == old(language) && lines == old(lines)
      ensures |Stream()| < |old(Stream())| || (|Stream()| == |old(Stream())| && s' == [])
      ensures hyBuf + Scan(language, line', s', term', Stream()) == old(hyBuf) + Grouped(language, line, s, p, g, term, old(Stream()))
    {
      GroupedStep(language, line, s, p, g, term, Stream());
      var w := HylitePart(line, s[p..]);
      if term {
        ScanStep(language, line, [], term, Stream());
        AppendAssociative(hyBuf, [w], ExtractAll(language, Stream()));
        hyBuf := hyBuf + [w];
        return line, [], term;
      }
      var next := GroupContinue(g, w);
      if next.None? {
        ScanStep(language, line, [], term, Stream());
        return line, [], term;
      }
      return next.value.line, next.value.text, next.value.terminated;
    }

    /** `next_hylite_part(file)`: the first writing still to come, or nil when there is none. */
    method NextHylitePart() returns (hp: Option<HylitePart>)
      requires Valid()
      modifies this
      ensures Valid() && language == old(language) && lines == old(lines)
      ensures hp.None? ==> old(Pending()) == [] && Pending() == []
      ensures hp.Some? ==> old(Pending()) == [hp.value] + Pending()
    {
      while hyBuf == []
        invariant Valid() && language == old(language) && lines == old(lines)
        invariant Pending() == old(Pending())
        decreases |Stream()|
      {
        var part := NextCommentPart();
        if part.None? {
          assert ExtractAll(language, []) == [];
          return None;
        }
        var c := part.value;
        ExtractAllCons(language, c, Stream());
        ScanPart(c.line, c.text, c.terminated);
      }
      ghost var rest := ExtractAll(language, Stream());
      hp := Some(hyBuf[0]);
      hyBuf := hyBuf[1..];
      AppendAssociative([hp.value], hyBuf, rest);
    }

    /** The body of the loop of `find_all_hylites`: `parse_hylite_string` on the writing, then
        its location added to the hylite answered. */
    method ParseWriting(hset: HyliteSet, w: HylitePart)
      requires hset.Valid() && Splittable(w.text)
      modifies hset
      ensures hset.Valid() && hset.anonId == old(hset.anonId)
      ensures hset.Contents() == ParseOne(old(hset.Contents()), file, w)
    {
      ParseKeepsValid(hset.Contents(), w.text);
      var h := hset.Parse(w.text);
      hset.AddLocation(h, Location(file, w.line));
    }

    /** `find_all_hylites(set)` on a scanner as `Scanner.new` leaves it, the file holding
        `contents`: the type is determined from the name, then every writing is parsed into the
        set with its location. A writing with no name section raises, and the answer is false. */
    method FindAllHylites(hset: HyliteSet, contents: seq<string>) returns (ok: bool)
      requires hset.Valid()
      requires commentBuf == [] && hyBuf == [] && lineNo == 0
      modifies this, hset
      ensures hset.Valid() && hset.anonId == old(hset.anonId)
      ensures (hset.Contents(), ok) == ScanFile(old(hset.Contents()), file, contents)
    {
      language := DetermineType(file);
      lines := contents;
      cursor := 0;
      assert Stream() == Lex(language, contents, 0);
      assert Pending() == ExtractAll(language, Lex(language, contents, 0));
      while true
        invariant Valid() && language == DetermineType(file) && lines == contents
        invariant hset.Valid() && hset.anonId == old(hset.anonId)
        invariant ParseParts(hset.Contents(), file, Pending()) == ScanFile(old(hset.Contents()), file, contents)
        decreases |Pending()|
      {
        var hp := NextHylitePart();
        if hp.None? {
          return true;
        }
        var w := hp.value;
        ParsePartsStep(hset.Contents(), file, w, Pending());
        if !Splittable(w.text) {
          return false;
        }
        ParseWriting(hset, w);
      }
    }
  }
}

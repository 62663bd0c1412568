/**
 * The PDF statement parser (app/main.py, `parse_pdf_to_df`): the pages' extracted texts are
 * joined into one text, the text is cut into its non-blank lines, and every line with at
 * least three whitespace-separated tokens whose last token parses as a number becomes a
 * record. The text extraction and Python's `float()` are outside the model: the page texts
 * are an input and the number parse is the parameter `parse`.
 */
module PdfParse {
  import opened Wrappers
  import opened PyStr
  import opened Seqs

  /** One statement line as the dict appended to `records`; `A` is the parsed amount. */
  datatype Record<A> = Record(date: string, description: string, amount: A)

  // ---------------------------------------------------------------- joining the pages

  /** What one page adds to the text: its text and a newline, or nothing when it is empty. */
  function PageChunk(page: string): (chunk: string)
    ensures chunk == "" <==> page == ""
    ensures chunk != "" ==> chunk[|chunk| - 1] == '\n'
  {
    if page != "" then page + "\n" else ""
  }

  /** The text the page loop builds; it is empty or ends with a newline. */
  function PageText(pages: seq<string>): (text: string)
    ensures text == "" || text[|text| - 1] == '\n'
  {
    if pages == [] then ""
    else PageText(pages[..|pages| - 1]) + PageChunk(pages[|pages| - 1])
  }

  /** The page loop: `text += page_text + "\n"` for every page whose text is non-empty. */
  method JoinPages(pages: seq<string>) returns (text: string)
    ensures text == PageText(pages)
  {
    text := "";
    for i := 0 to |pages|
      invariant text == PageText(pages[..i])
    {
      TakeStep(pages, i);
      var pageText := pages[i];
      if pageText != "" {
        text := text + pageText + "\n";
      }
    }
    TakeAll(pages);
  }

  /** The text of a run of pages is the text of its first part followed by that of the rest. */
  lemma {:induction false} PageTextConcat(a: seq<string>, b: seq<string>)
    ensures PageText(a + b) == PageText(a) + PageText(b)
    decreases |b|
  {
    if b == [] {
      ConcatEmpty(a);
    } else {
      var b' := b[..|b| - 1];
      ConcatLast(a, b);
      PageTextConcat(a, b');
      ConcatAssoc(PageText(a), PageText(b'), PageChunk(b[|b| - 1]));
    }
  }

  /** A page with no text adds nothing, wherever it stands. */
  lemma EmptyPageAddsNothing(a: seq<string>, b: seq<string>)
    ensures PageText(a + [""] + b) == PageText(a + b)
  {
    var empty: seq<string> := [""];
    assert empty[..0] == [];
    assert PageText(empty) == "";
    PageTextConcat(a + empty, b);
    PageTextConcat(a, empty);
    ConcatEmpty(PageText(a));
    PageTextConcat(a, b);
  }

  /** A non-empty page adds exactly its text and one newline. */
  lemma NonEmptyPageAddsLine(a: seq<string>, page: string)
    requires page != ""
    ensures PageText(a + [page]) == PageText(a) + page + "\n"
  {
  }

  // ---------------------------------------------------------------- keeping the real lines

  /** The lines of `ls` whose `strip()` is non-empty, in order. */
  function KeepContent(ls: seq<string>): (r: seq<string>)
    ensures |r| <= |ls|
  {
    if ls == [] then []
    else (if Strip(ls[0]) != "" then [ls[0]] else []) + KeepContent(ls[1..])
  }

  /** The filter keeps exactly the lines that are not blank. */
  lemma {:induction false} KeepContentMembers(ls: seq<string>)
    ensures forall line :: line in KeepContent(ls) <==> line in ls && !IsBlank(line)
  {
    if ls != [] {
      KeepContentMembers(ls[1..]);
      assert ls == [ls[0]] + ls[1..];
    }
  }

  /** One step of the filter. */
  lemma KeepContentCons(line: string, rest: seq<string>)
    ensures KeepContent([line] + rest) == (if Strip(line) != "" then [line] else []) + KeepContent(rest)
  {
    assert ([line] + rest)[1..] == rest;
  }

  /** The filter keeps the lines' order: filtering two runs of lines is filtering each. */
  lemma {:induction false} KeepContentConcat(a: seq<string>, b: seq<string>)
    ensures KeepContent(a + b) == KeepContent(a) + KeepContent(b)
  {
    if a == [] {
      ConcatEmpty(b);
      ConcatEmpty(KeepContent(b));
    } else {
      var head := if Strip(a[0]) != "" then [a[0]] else [];
      ConsConcat(a, b);
      KeepContentCons(a[0], a[1..] + b);
      KeepContentCons(a[0], a[1..]);
      KeepContentConcat(a[1..], b);
      ConcatAssoc(head, KeepContent(a[1..]), KeepContent(b));
    }
  }

  /** The lines handed to the record parser: `text.split("\n")` without its blank lines. */
  function ContentLines(text: string): (lines: seq<string>)
    ensures |lines| <= |Split(text, '\n')|
  {
    KeepContent(Split(text, '\n'))
  }

  /**
   * The lines handed on are exactly the non-blank pieces of the text between newlines: each
   * has a non-whitespace character and none holds a newline.
   */
  lemma ContentLinesMembers(text: string)
    ensures forall line :: line in ContentLines(text) <==> line in Split(text, '\n') && !IsBlank(line)
    ensures forall line :: line in ContentLines(text) ==> '\n' !in line && Strip(line) != ""
  {
    KeepContentMembers(Split(text, '\n'));
    SplitPieces(text, '\n');
  }

  /** The empty piece after a final newline is never handed on. */
  lemma KeepContentEmptyLast(ls: seq<string>)
    ensures KeepContent(ls + [""]) == KeepContent(ls)
  {
    KeepContentConcat(ls, [""]);
    assert KeepContent([""]) == [];
    ConcatEmpty(KeepContent(ls));
  }

  /** The empty text has no line. */
  lemma ContentLinesOfEmpty()
    ensures ContentLines("") == []
  {
    assert Split("", '\n') == [""];
    assert Strip("") == "";
  }

  /** A final newline adds no line. */
  lemma ContentLinesNewlineEnd(t: string)
    ensures ContentLines(t + "\n") == ContentLines(t)
  {
    assert t + "\n" == t + ['\n'] + "";
    SplitConcat(t, "", '\n');
    KeepContentEmptyLast(Split(t, '\n'));
  }

  /** A text that is empty or ends in a newline shares no line with what follows it. */
  lemma ContentLinesAfterBreak(t: string, u: string)
    requires t == "" || t[|t| - 1] == '\n'
    ensures ContentLines(t + u) == ContentLines(t) + ContentLines(u)
  {
    if t == "" {
      assert t + u == u;
      ContentLinesOfEmpty();
      ConcatEmpty(ContentLines(u));
    } else {
      var v := t[..|t| - 1];
      assert t == v + "\n";
      assert t + u == v + ['\n'] + u;
      SplitConcat(v, u, '\n');
      KeepContentConcat(Split(v, '\n'), Split(u, '\n'));
      ContentLinesNewlineEnd(v);
      calc {
        ContentLines(t + u);
        KeepContent(Split(v + ['\n'] + u, '\n'));
        KeepContent(Split(v, '\n') + Split(u, '\n'));
        ContentLines(v) + ContentLines(u);
        ContentLines(v + "\n") + ContentLines(u);
      }
    }
  }

  /** The text of the pages followed by one more page. */
  lemma PageTextSnoc(pages: seq<string>, page: string)
    ensures PageText(pages + [page]) == PageText(pages) + PageChunk(page)
  {
    ConcatLast(pages, [page]);
  }

  /** What one page adds holds exactly that page's lines. */
  lemma ContentLinesOfChunk(page: string)
    ensures ContentLines(PageChunk(page)) == ContentLines(page)
  {
    if page == "" {
      ContentLinesOfEmpty();
    } else {
      ContentLinesNewlineEnd(page);
    }
  }

  /** The lines of the joined text are the pages' own non-blank lines, page after page. */
  lemma ContentLinesOfNextPage(pages: seq<string>, page: string)
    ensures ContentLines(PageText(pages + [page])) == ContentLines(PageText(pages)) + ContentLines(page)
  {
    var t, chunk := PageText(pages), PageChunk(page);
    PageTextSnoc(pages, page);
    ContentLinesAfterBreak(t, chunk);
    ContentLinesOfChunk(page);
  }

  // ---------------------------------------------------------------- one line to one record

  /** The loop body for one line: a record when it has three tokens and its amount parses. */
  function LineRecord<A>(line: string, parse: string -> Option<A>): (r: Option<Record<A>>)
    ensures r.Some? ==> !IsBlank(line) && IsWord(r.value.date)
  {
    TokensEmpty(line);
    var parts := Tokens(line);
    if |parts| >= 3 then
      match parse(RemoveChar(parts[|parts| - 1], ','))
      case Some(amount) => Some(Record(parts[0], Join(parts[1..|parts| - 1], " "), amount))
      case None => None
    else None
  }

  /** A line yields a record exactly when it has at least three tokens and its last token, commas removed, parses. */
  lemma LineRecordAccepted<A>(line: string, parse: string -> Option<A>)
    ensures var t := Tokens(line);
      LineRecord(line, parse).Some? <==> |t| >= 3 && parse(RemoveChar(t[|t| - 1], ',')).Some?
  {
  }

  /** The record's date is the line's first token: one whitespace-free word. */
  lemma LineRecordDate<A>(line: string, parse: string -> Option<A>)
    requires LineRecord(line, parse).Some?
    ensures |Tokens(line)| >= 3
    ensures LineRecord(line, parse).value.date == Tokens(line)[0]
    ensures IsWord(LineRecord(line, parse).value.date)
  {
  }

  /**
   * The description holds the tokens strictly between the first and the last, single-spaced:
   * it is non-empty, has no space at either end and no doubled space, and splitting it again
   * gives those tokens back. Together with the date and the amount token it accounts for
   * every token of the line.
   */
  lemma LineRecordDescription<A>(line: string, parse: string -> Option<A>)
    requires LineRecord(line, parse).Some?
    ensures var t, d := Tokens(line), LineRecord(line, parse).value.description;
      |t| >= 3 && Tokens(d) == t[1..|t| - 1] && SingleSpaced(d) &&
      t == [t[0]] + Tokens(d) + [t[|t| - 1]]
  {
    var t := Tokens(line);
    var middle := t[1..|t| - 1];
    assert LineRecord(line, parse).value.description == Join(middle, " ");
    TokensOfJoin(middle);
    JoinSingleSpaced(middle);
    SplitAround(t);
  }

  /** The amount is what the number parse gives for the last token with every comma removed. */
  lemma LineRecordAmount<A>(line: string, parse: string -> Option<A>)
    requires LineRecord(line, parse).Some?
    ensures var t := Tokens(line);
      |t| >= 3 && ',' !in RemoveChar(t[|t| - 1], ',') &&
      parse(RemoveChar(t[|t| - 1], ',')) == Some(LineRecord(line, parse).value.amount)
  {
  }

  /** An empty or whitespace-only line never yields a record. */
  lemma BlankLineYieldsNothing<A>(line: string, parse: string -> Option<A>)
    requires IsBlank(line)
    ensures LineRecord(line, parse) == None
  {
    TokensEmpty(line);
  }

  // ---------------------------------------------------------------- the line loop

  /** The records the line loop has collected after the given lines. */
  function Records<A>(lines: seq<string>, parse: string -> Option<A>): (rs: seq<Record<A>>)
    ensures |rs| <= |lines|
  {
    if lines == [] then []
    else
      var init := Records(lines[..|lines| - 1], parse);
      match LineRecord(lines[|lines| - 1], parse)
      case Some(r) => init + [r]
      case None => init
  }

  /** What the loop has collected after one more line. */
  lemma RecordsStep<A>(lines: seq<string>, i: nat, parse: string -> Option<A>)
    requires i < |lines|
    ensures Records(lines[..i + 1], parse) ==
      match LineRecord(lines[i], parse)
      case Some(r) => Records(lines[..i], parse) + [r]
      case None => Records(lines[..i], parse)
  {
    TakeStep(lines, i);
  }

  /** The line loop: one record appended per accepted line, `continue` on an amount that does not parse. */
  method ParseLines<A>(lines: seq<string>, parse: string -> Option<A>) returns (records: seq<Record<A>>)
    ensures records == Records(lines, parse)
  {
    records := [];
    for i := 0 to |lines|
      invariant records == Records(lines[..i], parse)
    {
      RecordsStep(lines, i, parse);
      var parts := Tokens(lines[i]);
      if |parts| >= 3 {
        var date := parts[0];
        var amountText := RemoveChar(parts[|parts| - 1], ',');
        var amount := parse(amountText);
        if amount.None? {
          assert LineRecord(lines[i], parse) == None;
          continue;
        }
        var description := Join(parts[1..|parts| - 1], " ");
        assert LineRecord(lines[i], parse) == Some(Record(date, description, amount.value));
        records := records + [Record(date, description, amount.value)];
      } else {
        assert LineRecord(lines[i], parse) == None;
      }
    }
    TakeAll(lines);
  }

  /** Lines are handled one at a time: the records of two runs of lines are those of each, in order. */
  lemma {:induction false} RecordsConcat<A>(a: seq<string>, b: seq<string>, parse: string -> Option<A>)
    ensures Records(a + b, parse) == Records(a, parse) + Records(b, parse)
    decreases |b|
  {
    if b == [] {
      ConcatEmpty(a);
      ConcatEmpty(Records(a, parse));
    } else {
      var b' := b[..|b| - 1];
      ConcatLast(a, b);
      RecordsConcat(a, b', parse);
      var ra, rb' := Records(a, parse), Records(b', parse);
      match LineRecord(b[|b| - 1], parse)
      case Some(r) => ConcatAssoc(ra, rb', [r]);
      case None =>
    }
  }

  /** The positions of the lines that yield a record, in increasing order. */
  function RecordLines<A>(lines: seq<string>, parse: string -> Option<A>): seq<nat> {
    if lines == [] then []
    else
      RecordLines(lines[..|lines| - 1], parse) +
      (if LineRecord(lines[|lines| - 1], parse).Some? then [|lines| - 1] else [])
  }

  /** The positions are in range and strictly increasing. */
  lemma {:induction false} RecordLinesOrdered<A>(lines: seq<string>, parse: string -> Option<A>)
    ensures forall k :: 0 <= k < |RecordLines(lines, parse)| ==> RecordLines(lines, parse)[k] < |lines|
    ensures forall k, m :: 0 <= k < m < |RecordLines(lines, parse)| ==>
      RecordLines(lines, parse)[k] < RecordLines(lines, parse)[m]
  {
    if lines != [] {
      var init, n := lines[..|lines| - 1], |lines| - 1;
      RecordLinesOrdered(init, parse);
      var idx0, idx := RecordLines(init, parse), RecordLines(lines, parse);
      assert idx == idx0 + (if LineRecord(lines[n], parse).Some? then [n] else []);
      forall k | 0 <= k < |idx| ensures idx[k] < |lines| {
        if k < |idx0| { assert idx[k] == idx0[k]; }
      }
      forall k, m | 0 <= k < m < |idx| ensures idx[k] < idx[m] {
        assert idx[k] == idx0[k];
        if m < |idx0| { assert idx[m] == idx0[m]; }
      }
    }
  }

  /** The positions are exactly the lines that yield a record; every other line is skipped. */
  lemma {:induction false} RecordLinesExact<A>(lines: seq<string>, parse: string -> Option<A>)
    ensures forall i :: 0 <= i < |lines| ==> (i in RecordLines(lines, parse) <==> LineRecord(lines[i], parse).Some?)
  {
    if lines != [] {
      var init := lines[..|lines| - 1];
      var n := |init|;
      RecordLinesExact(init, parse);
      RecordLinesOrdered(init, parse);
      var idx0, idx := RecordLines(init, parse), RecordLines(lines, parse);
      assert idx == idx0 + (if LineRecord(lines[n], parse).Some? then [n] else []);
      assert n !in idx0;
      forall i | 0 <= i < n ensures i in idx <==> LineRecord(lines[i], parse).Some? {
        assert lines[i] == init[i];
      }
    }
  }

  /**
   * Every record comes from its own line, in the order of the lines: the k-th record is
   * what the k-th accepted line yields. With RecordLinesExact, all other lines are skipped
   * without error.
   */
  lemma {:induction false} RecordsOrigin<A>(lines: seq<string>, parse: string -> Option<A>)
    ensures var rs, idx := Records(lines, parse), RecordLines(lines, parse);
      |idx| == |rs| &&
      forall k :: 0 <= k < |idx| ==> idx[k] < |lines| && LineRecord(lines[idx[k]], parse) == Some(rs[k])
  {
    if lines != [] {
      var init := lines[..|lines| - 1];
      RecordsOrigin(init, parse);
      var idx0, idx := RecordLines(init, parse), RecordLines(lines, parse);
      forall k | 0 <= k < |idx0| ensures idx[k] == idx0[k] && lines[idx0[k]] == init[idx0[k]] {
      }
    }
  }

  // ---------------------------------------------------------------- the whole parser

  /** The records `parse_pdf_to_df` puts into its table, for the given page texts. */
  function PdfRecords<A>(pages: seq<string>, parse: string -> Option<A>): (rs: seq<Record<A>>)
    ensures |rs| <= |ContentLines(PageText(pages))|
  {
    Records(ContentLines(PageText(pages)), parse)
  }

  method ParsePdf<A>(pages: seq<string>, parse: string -> Option<A>) returns (records: seq<Record<A>>)
    ensures records == PdfRecords(pages, parse)
  {
    var text := JoinPages(pages);
    var lines := ContentLines(text);
    records := ParseLines(lines, parse);
  }

  /** A further page adds its own lines' records after those of the pages before it. */
  lemma PdfRecordsOfNextPage<A>(pages: seq<string>, page: string, parse: string -> Option<A>)
    ensures PdfRecords(pages + [page], parse) == PdfRecords(pages, parse) + Records(ContentLines(page), parse)
  {
    ContentLinesOfNextPage(pages, page);
    RecordsConcat(ContentLines(PageText(pages)), ContentLines(page), parse);
  }

  /** A statement of one page has that page's lines. */
  lemma ContentLinesOfOnePage(page: string)
    ensures ContentLines(PageText([page])) == ContentLines(page)
  {
    ContentLinesOfNextPage([], page);
    ConcatEmpty([page]);
    ContentLinesOfEmpty();
    ConcatEmpty(ContentLines(page));
  }

  /** A line without a newline that is not blank is handed on as it is. */
  lemma ContentLinesOfOneLine(line: string)
    requires '\n' !in line && !IsBlank(line)
    ensures ContentLines(line) == [line]
  {
    SplitNoSep(line, '\n');
    KeepContentCons(line, []);
    ConcatEmpty([line]);
  }

  /** A first line that yields a record gives the first record. */
  lemma FirstLineRecord<A>(lines: seq<string>, parse: string -> Option<A>)
    requires |lines| > 0 && LineRecord(lines[0], parse).Some?
    ensures |Records(lines, parse)| > 0
    ensures Some(Records(lines, parse)[0]) == LineRecord(lines[0], parse)
  {
    RecordsOrigin(lines, parse);
    RecordLinesOrdered(lines, parse);
    RecordLinesExact(lines, parse);
    var idx := RecordLines(lines, parse);
    assert 0 in idx;
  }

  /** The first line is parsed like every other: it is not dropped as a header. */
  lemma FirstLineNotSkipped<A>(pages: seq<string>, parse: string -> Option<A>)
    requires |ContentLines(PageText(pages))| > 0
    requires LineRecord(ContentLines(PageText(pages))[0], parse).Some?
    ensures |PdfRecords(pages, parse)| > 0
    ensures Some(PdfRecords(pages, parse)[0]) == LineRecord(ContentLines(PageText(pages))[0], parse)
  {
    FirstLineRecord(ContentLines(PageText(pages)), parse);
  }
}

/**
 * The two pieces of logic in static/js/main.js that decide what the page
 * sends: the parser of the batch-create text box ("name-url" per line)
 * and the choice of ids a batch start sends.
 */
module BatchForm {
  import opened Wrappers
  import opened JsString
  import opened Database
  import App

  /** The object `{ name, url }` the parser builds for a line; `url` is `undefined` (`None`) when the line has no `-`. */
  datatype Draft = Draft(name: string, url: Option<string>)

  /** A task as the form submits it. */
  datatype Entry = Entry(name: string, url: string)

  /** `lines.map(line => line.trim())` */
  function TrimLines(lines: seq<string>): seq<string>
  {
    if lines == [] then [] else [Trim(lines[0])] + TrimLines(lines[1..])
  }

  /** `lines.filter(line => line)`: the empty string is falsy. */
  function NonEmpty(lines: seq<string>): seq<string>
  {
    if lines == [] then []
    else if lines[0] == "" then NonEmpty(lines[1..])
    else [lines[0]] + NonEmpty(lines[1..])
  }

  /** `const [name, url] = line.split('-').map(s => s.trim())`: the first two fields, the rest dropped. */
  function DraftOf(line: string): Draft
  {
    var fields := Split(line, '-');
    Draft(Trim(fields[0]), if |fields| >= 2 then Some(Trim(fields[1])) else None)
  }

  /** `lines.map(line => { ... return { name, url }; })` */
  function ToDrafts(lines: seq<string>): seq<Draft>
  {
    if lines == [] then [] else [DraftOf(lines[0])] + ToDrafts(lines[1..])
  }

  /** `task.name && task.url`: both present and non-empty. */
  predicate IsComplete(d: Draft)
  {
    d.name != "" && d.url.Some? && d.url.value != ""
  }

  /** `drafts.filter(task => task.name && task.url)` */
  function KeepComplete(drafts: seq<Draft>): seq<Entry>
  {
    if drafts == [] then []
    else if IsComplete(drafts[0]) then [Entry(drafts[0].name, drafts[0].url.value)] + KeepComplete(drafts[1..])
    else KeepComplete(drafts[1..])
  }

  /** The parser of the batch-create form: the `tasks` array built from the text box. */
  function ParseTasks(text: string): seq<Entry>
  {
    KeepComplete(ToDrafts(NonEmpty(TrimLines(Split(text, '\n')))))
  }

  /** What one line of the text box contributes on its own: an entry, or nothing. */
  function LineEntry(line: string): Option<Entry>
  {
    var t := Trim(line);
    var d := DraftOf(t);
    if t != "" && IsComplete(d) then Some(Entry(d.name, d.url.value)) else None
  }

  /** The entries of the lines, line by line, in order. */
  function PerLine(lines: seq<string>): seq<Entry>
  {
    if lines == [] then [] else Prepend(LineEntry(lines[0]), PerLine(lines[1..]))
  }

  /** The entries of the later lines, preceded by this line's entry if it has one. */
  function Prepend(e: Option<Entry>, entries: seq<Entry>): (r: seq<Entry>)
    ensures |r| == |entries| + if e.Some? then 1 else 0
  {
    if e.Some? then [e.value] + entries else entries
  }

  /** What every submitted entry satisfies. */
  predicate WellFormed(e: Entry)
  {
    && e.name != "" && e.url != ""
    && IsTrimmed(e.name) && IsTrimmed(e.url)
    && '-' !in e.name && '-' !in e.url
    && '\n' !in e.name && '\n' !in e.url
  }

  /** The pipeline of `map`s and `filter`s handles each line on its own. */
  lemma {:induction false} PipelineIsPerLine(lines: seq<string>)
    ensures KeepComplete(ToDrafts(NonEmpty(TrimLines(lines)))) == PerLine(lines)
  {
    if lines != [] {
      PipelineIsPerLine(lines[1..]);
      var t := Trim(lines[0]);
      var rest := TrimLines(lines[1..]);
      assert TrimLines(lines) == [t] + rest;
      assert ([t] + rest)[1..] == rest;
      var kept := NonEmpty(rest);
      if t != "" {
        assert NonEmpty([t] + rest) == [t] + kept;
        assert ([t] + kept)[1..] == kept;
        var d := DraftOf(t);
        var drafts := ToDrafts(kept);
        assert ToDrafts([t] + kept) == [d] + drafts;
        assert ([d] + drafts)[1..] == drafts;
        assert KeepComplete([d] + drafts)
            == (if IsComplete(d) then [Entry(d.name, d.url.value)] else []) + KeepComplete(drafts);
      } else {
        assert NonEmpty([t] + rest) == kept;
      }
    }
  }

  /** The parsed tasks are the entries of the text's lines, in line order. */
  lemma ParseTasksIsPerLine(text: string)
    ensures ParseTasks(text) == PerLine(Split(text, '\n'))
  {
    PipelineIsPerLine(Split(text, '\n'));
  }

  /** The `trim` stage keeps one line per line, each trimmed, in place. */
  lemma TrimLinesPointwise(lines: seq<string>)
    ensures |TrimLines(lines)| == |lines|
    ensures forall i :: 0 <= i < |lines| ==> TrimLines(lines)[i] == Trim(lines[i])
  {
    TrimLinesLength(lines);
    forall i | 0 <= i < |lines|
      ensures TrimLines(lines)[i] == Trim(lines[i])
    {
      TrimLinesAt(lines, i);
    }
  }

  lemma {:induction false} TrimLinesLength(lines: seq<string>)
    ensures |TrimLines(lines)| == |lines|
  {
    if lines != [] {
      TrimLinesLength(lines[1..]);
    }
  }

  lemma {:induction false} TrimLinesAt(lines: seq<string>, i: nat)
    requires i < |lines|
    ensures i < |TrimLines(lines)| && TrimLines(lines)[i] == Trim(lines[i])
  {
    TrimLinesLength(lines);
    var head, tail := [Trim(lines[0])], TrimLines(lines[1..]);
    assert TrimLines(lines) == head + tail;
    if i > 0 {
      TrimLinesAt(lines[1..], i - 1);
      assert lines[1..][i - 1] == lines[i];
      assert (head + tail)[i] == tail[i - 1];
    }
  }

  /** The first `filter` stage keeps exactly the non-empty lines. */
  lemma {:induction false} NonEmptyMembers(lines: seq<string>)
    ensures |NonEmpty(lines)| <= |lines|
    ensures forall i :: 0 <= i < |NonEmpty(lines)| ==> NonEmpty(lines)[i] != "" && NonEmpty(lines)[i] in lines
    ensures forall i :: 0 <= i < |lines| && lines[i] != "" ==> lines[i] in NonEmpty(lines)
  {
    if lines != [] {
      NonEmptyMembers(lines[1..]);
      assert lines == [lines[0]] + lines[1..];
      assert forall i :: 1 <= i < |lines| ==> lines[1..][i - 1] == lines[i];
    }
  }

  /**
   * The fields of a line: the name is trimmed and has no `-`; the url is
   * `undefined` exactly when the line has no `-`, and is otherwise trimmed
   * and without `-` as well.
   */
  lemma DraftOfFields(line: string)
    ensures IsTrimmed(DraftOf(line).name) && '-' !in DraftOf(line).name
    ensures DraftOf(line).url.None? <==> '-' !in line
    ensures DraftOf(line).url.Some? ==> IsTrimmed(DraftOf(line).url.value) && '-' !in DraftOf(line).url.value
  {
    var fields := Split(line, '-');
    SplitPiece(line, '-', 0);
    TrimChars(fields[0]);
    if |fields| >= 2 {
      SplitPiece(line, '-', 1);
      TrimChars(fields[1]);
      assert '-' in line by {
        JoinSplit(line, '-');
        assert line == fields[0] + ['-'] + Join(fields[1..], '-');
        assert line[|fields[0]|] == '-';
      }
    } else {
      JoinSplit(line, '-');
      assert Join(fields, '-') == fields[0];
    }
  }

  /** The second `filter` stage keeps exactly the complete drafts, as entries. */
  lemma {:induction false} KeepCompleteMembers(drafts: seq<Draft>)
    ensures |KeepComplete(drafts)| <= |drafts|
    ensures forall i :: 0 <= i < |KeepComplete(drafts)| ==>
      var e := KeepComplete(drafts)[i];
      e.name != "" && e.url != "" && Draft(e.name, Some(e.url)) in drafts
    ensures forall j :: 0 <= j < |drafts| && IsComplete(drafts[j]) ==>
      Entry(drafts[j].name, drafts[j].url.value) in KeepComplete(drafts)
  {
    if drafts != [] {
      KeepCompleteMembers(drafts[1..]);
      assert drafts == [drafts[0]] + drafts[1..];
      assert forall j :: 1 <= j < |drafts| ==> drafts[1..][j - 1] == drafts[j];
    }
  }

  /**
   * An entry drawn from a line of the text box has a non-empty name and
   * url, without spaces at their ends, without `-`, and without line breaks
   * when the line has none.
   */
  lemma LineEntryWellFormed(line: string)
    requires '\n' !in line
    ensures LineEntry(line).Some? ==> WellFormed(LineEntry(line).value)
  {
    var t := Trim(line);
    var fields := Split(t, '-');
    if LineEntry(line).Some? {
      TrimChars(line);
      SplitPiece(t, '-', 0);
      SplitPiece(t, '-', 1);
      TrimChars(fields[0]);
      TrimChars(fields[1]);
      var name, url := Trim(fields[0]), Trim(fields[1]);
      assert LineEntry(line).value == Entry(name, url);
      assert '-' !in name && '\n' !in name;
      assert '-' !in url && '\n' !in url;
    }
  }

  /** No more entries than lines. */
  lemma {:induction false} PerLineLength(lines: seq<string>)
    ensures |PerLine(lines)| <= |lines|
  {
    if lines != [] {
      PerLineLength(lines[1..]);
    }
  }

  /** Every entry of a text's lines is well formed. */
  lemma {:induction false} PerLineWellFormed(lines: seq<string>)
    requires forall i :: 0 <= i < |lines| ==> '\n' !in lines[i]
    ensures forall i :: 0 <= i < |PerLine(lines)| ==> WellFormed(PerLine(lines)[i])
  {
    if lines != [] {
      assert forall i :: 0 <= i < |lines| - 1 ==> lines[1..][i] == lines[i + 1];
      PerLineWellFormed(lines[1..]);
      LineEntryWellFormed(lines[0]);
      var e := LineEntry(lines[0]);
      if e.Some? {
        ConsWellFormed(e.value, PerLine(lines[1..]));
      }
    }
  }

  /** Putting a well-formed entry in front keeps every entry well formed. */
  lemma ConsWellFormed(e: Entry, tail: seq<Entry>)
    requires WellFormed(e)
    requires forall i :: 0 <= i < |tail| ==> WellFormed(tail[i])
    ensures forall i :: 0 <= i < |tail| + 1 ==> WellFormed(([e] + tail)[i])
  {
  }

  /**
   * Every parsed task is well formed, and the text yields no more tasks than
   * it has lines.
   */
  lemma ParseTasksWellFormed(text: string)
    ensures |ParseTasks(text)| <= |Split(text, '\n')|
    ensures forall i :: 0 <= i < |ParseTasks(text)| ==> WellFormed(ParseTasks(text)[i])
  {
    ParseTasksIsPerLine(text);
    var lines := Split(text, '\n');
    forall i | 0 <= i < |lines|
      ensures '\n' !in lines[i]
    {
      SplitPiece(text, '\n', i);
    }
    PerLineLength(lines);
    PerLineWellFormed(lines);
  }

  /** Entries keep the order of their lines: the parse of concatenated lines is the concatenated parses. */
  lemma {:induction false} PerLineAppend(a: seq<string>, b: seq<string>)
    ensures PerLine(a + b) == PerLine(a) + PerLine(b)
  {
    if a == [] {
      assert a + b == b;
    } else {
      assert (a + b)[0] == a[0];
      assert (a + b)[1..] == a[1..] + b;
      PerLineAppend(a[1..], b);
      PrependAppend(LineEntry(a[0]), PerLine(a[1..]), PerLine(b));
    }
  }

  /** `Prepend` distributes over a concatenation on the right. */
  lemma PrependAppend(e: Option<Entry>, x: seq<Entry>, y: seq<Entry>)
    ensures Prepend(e, x + y) == Prepend(e, x) + y
  {
    if e.Some? {
      assert [e.value] + (x + y) == ([e.value] + x) + y;
    }
  }

  /** A blank or whitespace-only line contributes nothing. */
  lemma BlankLineIgnored(line: string)
    requires forall i :: 0 <= i < |line| ==> IsSpace(line[i])
    ensures LineEntry(line) == None
  {
    TrimEmpty(line);
  }

  /** A line without `-` contributes nothing: its url is `undefined`. */
  lemma NoDashIgnored(line: string)
    requires '-' !in line
    ensures LineEntry(line) == None
  {
    var t := Trim(line);
    TrimChars(line);
    SplitNoSeparator(t, '-');
  }

  /**
   * Only the first two `-`-separated fields are kept, each trimmed: a url
   * containing `-` is cut at its first `-`, and the remainder of the line
   * is dropped.
   */
  lemma UrlCutAtDash(a: string, b: string, rest: string)
    requires '-' !in a && '-' !in b
    requires Trim(a) != "" && Trim(b) != ""
    ensures LineEntry(a + "-" + b + "-" + rest) == Some(Entry(Trim(a), Trim(b)))
  {
    assert "-" == ['-'];
    var a' := TrimStart(a);
    var t := a' + ['-'] + b + ['-'] + TrimEnd(rest);
    TrimDashed(a, b, rest);
    assert forall c :: c in a' ==> c in a;
    TwoDashedFields(a', b, TrimEnd(rest));
    TrimStartTwice(a);
    assert Trim(a') == Trim(a);
    assert DraftOf(t) == Draft(Trim(a), Some(Trim(b)));
  }

  /** Trimming a dashed line trims only the outer ends of its first and last fields. */
  lemma TrimDashed(a: string, b: string, rest: string)
    requires Trim(a) != ""
    ensures Trim(a + ['-'] + b + ['-'] + rest) == TrimStart(a) + ['-'] + b + ['-'] + TrimEnd(rest)
  {
    var a' := TrimStart(a);
    assert a' != [];
    var mid := ['-'] + b + ['-'];
    Regroup(a, mid, rest);
    Regroup(a', mid, rest);
    Regroup(a, ['-'], b);
    Regroup(a, ['-'] + b, ['-']);
    Regroup(a', ['-'], b);
    Regroup(a', ['-'] + b, ['-']);
    TrimStartAppend(a, mid + rest);
    TrimEndPrepend(a' + mid, rest);
  }

  /** The first two `-`-separated fields of `x-b-tail`, when `x` and `b` have no `-`. */
  lemma TwoDashedFields(x: string, b: string, tail: string)
    requires '-' !in x && '-' !in b
    ensures |Split(x + ['-'] + b + ['-'] + tail, '-')| >= 2
    ensures Split(x + ['-'] + b + ['-'] + tail, '-')[0] == x
    ensures Split(x + ['-'] + b + ['-'] + tail, '-')[1] == b
  {
    Regroup(x + ['-'], b, ['-']);
    Regroup(x + ['-'], b + ['-'], tail);
    SplitAtFirst(x, '-', b + ['-'] + tail);
    SplitAtFirst(b, '-', tail);
  }

  /** Concatenation regrouped to the right. */
  lemma Regroup(x: string, y: string, z: string)
    ensures x + y + z == x + (y + z)
  {
  }

  /** For instance the line `news-https://my-site.org` becomes the task `news` with url `https://my`. */
  lemma UrlCutExample()
    ensures LineEntry("news-https://my-site.org") == Some(Entry("news", "https://my"))
  {
    assert "news-https://my-site.org" == "news" + "-" + "https://my" + "-" + "site.org";
    assert IsTrimmed("news") && IsTrimmed("https://my");
    assert '-' !in "news" && '-' !in "https://my";
    TrimOfTrimmed("news");
    TrimOfTrimmed("https://my");
    UrlCutAtDash("news", "https://my", "site.org");
  }

  /** One `name-url` line per entry. */
  function Lines(entries: seq<Entry>): (lines: seq<string>)
    ensures |lines| == |entries|
    ensures forall i :: 0 <= i < |entries| ==> lines[i] == entries[i].name + "-" + entries[i].url
  {
    if entries == [] then [] else [entries[0].name + "-" + entries[0].url] + Lines(entries[1..])
  }

  /** The text a user types for a list of entries. */
  function Render(entries: seq<Entry>): string
  {
    if entries == [] then "" else Join(Lines(entries), '\n')
  }

  /** A well-formed entry written as `name-url` parses back to itself. */
  lemma LineRoundTrip(e: Entry)
    requires WellFormed(e)
    ensures LineEntry(e.name + "-" + e.url) == Some(e)
  {
    var line := e.name + "-" + e.url;
    assert line == e.name + ['-'] + e.url;
    assert line[0] == e.name[0];
    assert IsTrimmed(line);
    TrimOfTrimmed(line);
    SplitAtFirst(e.name, '-', e.url);
    SplitNoSeparator(e.url, '-');
    var fields := Split(line, '-');
    assert fields == [e.name] + [e.url];
    assert fields[0] == e.name && fields[1] == e.url;
    TrimOfTrimmed(e.name);
    TrimOfTrimmed(e.url);
    assert DraftOf(line) == Draft(e.name, Some(e.url));
  }

  lemma {:induction false} PerLineOfLines(entries: seq<Entry>)
    requires forall i :: 0 <= i < |entries| ==> WellFormed(entries[i])
    ensures PerLine(Lines(entries)) == entries
  {
    if entries != [] {
      var e := entries[0];
      assert entries == [e] + entries[1..];
      var line := e.name + "-" + e.url;
      var rest := Lines(entries[1..]);
      assert forall i :: 0 <= i < |entries| - 1 ==> entries[1..][i] == entries[i + 1];
      PerLineOfLines(entries[1..]);
      LineRoundTrip(e);
      assert Lines(entries) == [line] + rest;
      assert ([line] + rest)[1..] == rest;
      assert PerLine([line] + rest) == [e] + PerLine(rest);
    }
  }

  /** No line of the rendered text contains a line break. */
  lemma {:induction false} LinesWithoutBreaks(entries: seq<Entry>)
    requires forall i :: 0 <= i < |entries| ==> WellFormed(entries[i])
    ensures forall i :: 0 <= i < |entries| ==> '\n' !in Lines(entries)[i]
  {
    if entries != [] {
      var e := entries[0];
      var line := e.name + "-" + e.url;
      assert forall i :: 0 <= i < |entries| - 1 ==> entries[1..][i] == entries[i + 1];
      LinesWithoutBreaks(entries[1..]);
      assert Lines(entries) == [line] + Lines(entries[1..]);
      assert '\n' !in line by {
        assert line == e.name + ['-'] + e.url;
      }
    }
  }

  /** Typing well-formed entries one per line and parsing the text gives back exactly those entries. */
  lemma ParseRenderRoundTrip(entries: seq<Entry>)
    requires forall i :: 0 <= i < |entries| ==> WellFormed(entries[i])
    ensures ParseTasks(Render(entries)) == entries
  {
    ParseTasksIsPerLine(Render(entries));
    PerLineOfLines(entries);
    LinesWithoutBreaks(entries);
    if entries != [] {
      SplitJoin(Lines(entries), '\n');
    }
  }

  /** The JSON body `{ tasks }` as the server reads it: every entry carries both keys. */
  function AsInputs(entries: seq<Entry>): (inputs: seq<App.TaskInput>)
    ensures |inputs| == |entries|
    ensures forall i :: 0 <= i < |entries| ==> inputs[i] == App.TaskInput(Some(entries[i].name), Some(entries[i].url))
  {
    if entries == [] then [] else [App.TaskInput(Some(entries[0].name), Some(entries[0].url))] + AsInputs(entries[1..])
  }

  lemma {:induction false} AsInputsComplete(entries: seq<Entry>)
    ensures App.FirstIncomplete(AsInputs(entries)) == |entries|
  {
    if entries != [] {
      AsInputsComplete(entries[1..]);
      assert AsInputs(entries)[1..] == AsInputs(entries[1..]);
    }
  }

  /**
   * The form sends a batch only when the parse found a task, and every task
   * it sends has a name and a url, so `batch_create_task` creates them all
   * and answers code 0 (it is never empty nor stopped by a missing field).
   */
  lemma FormBatchIsCreatedWhole(text: string)
    requires ParseTasks(text) != []
    ensures AsInputs(ParseTasks(text)) != []
    ensures App.FirstIncomplete(AsInputs(ParseTasks(text))) == |AsInputs(ParseTasks(text))|
  {
    AsInputsComplete(ParseTasks(text));
  }

  /** A row of the task table as the page holds it after `task_list`. */
  datatype Row = Row(id: nat, status: Status)

  /** `data.filter(item => item.status === 'waiting')` */
  function WaitingRows(rows: seq<Row>): seq<Row>
  {
    if rows == [] then []
    else if rows[0].status == Waiting then [rows[0]] + WaitingRows(rows[1..])
    else WaitingRows(rows[1..])
  }

  /** The filter keeps exactly the waiting rows. */
  lemma {:induction false} WaitingRowsMembers(rows: seq<Row>)
    ensures |WaitingRows(rows)| <= |rows|
    ensures forall i :: 0 <= i < |WaitingRows(rows)| ==> WaitingRows(rows)[i].status == Waiting && WaitingRows(rows)[i] in rows
    ensures forall i :: 0 <= i < |rows| && rows[i].status == Waiting ==> rows[i] in WaitingRows(rows)
  {
    if rows != [] {
      WaitingRowsMembers(rows[1..]);
      assert rows == [rows[0]] + rows[1..];
      assert forall i :: 1 <= i < |rows| ==> rows[1..][i - 1] == rows[i];
    }
  }

  /** `rows.map(item => item.id)` */
  function RowIds(rows: seq<Row>): (ids: seq<int>)
    ensures |ids| == |rows|
    ensures forall i :: 0 <= i < |rows| ==> ids[i] == rows[i].id
  {
    if rows == [] then [] else [rows[0].id as int] + RowIds(rows[1..])
  }

  /** The ids a batch start sends for a selection: those of its waiting rows. */
  function WaitingIds(rows: seq<Row>): seq<int>
  {
    RowIds(WaitingRows(rows))
  }

  /**
   * The batch-start button: no request when nothing is selected or no
   * selected row is waiting, otherwise a request with the waiting rows' ids.
   */
  function BatchStartRequest(selected: seq<Row>): (request: Option<seq<int>>)
    ensures request.None? <==> forall i :: 0 <= i < |selected| ==> selected[i].status != Waiting
    ensures request.Some? ==> request.value == WaitingIds(selected) && |request.value| >= 1
  {
    WaitingRowsNone(selected);
    if |selected| == 0 then None
    else
      var waiting := WaitingRows(selected);
      if |waiting| == 0 then None else Some(RowIds(waiting))
  }

  /** The filter finds no row exactly when no row is waiting. */
  lemma {:induction false} WaitingRowsNone(rows: seq<Row>)
    ensures |WaitingRows(rows)| == 0 <==> forall i :: 0 <= i < |rows| ==> rows[i].status != Waiting
  {
    if rows != [] {
      WaitingRowsNone(rows[1..]);
      assert forall i :: 1 <= i < |rows| ==> rows[i] == rows[1..][i - 1];
    }
  }

  /** An id is sent exactly when some selected row with that id is waiting. */
  lemma {:induction false} WaitingIdsMembers(rows: seq<Row>, x: int)
    ensures x in WaitingIds(rows) <==> exists i :: 0 <= i < |rows| && rows[i].id == x && rows[i].status == Waiting
  {
    if rows != [] {
      WaitingIdsMembers(rows[1..], x);
      if x in WaitingIds(rows[1..]) {
        var i :| 0 <= i < |rows[1..]| && rows[1..][i].id == x && rows[1..][i].status == Waiting;
        assert rows[i + 1] == rows[1..][i];
      }
      if exists i :: 0 <= i < |rows| && rows[i].id == x && rows[i].status == Waiting {
        var i :| 0 <= i < |rows| && rows[i].id == x && rows[i].status == Waiting;
        if i > 0 {
          assert rows[1..][i - 1] == rows[i];
        }
      }
    }
  }

  /** The ids are sent in selection order: the filter distributes over concatenation. */
  lemma WaitingIdsAppend(a: seq<Row>, b: seq<Row>)
    ensures WaitingIds(a + b) == WaitingIds(a) + WaitingIds(b)
  {
    WaitingRowsAppend(a, b);
    RowIdsAppend(WaitingRows(a), WaitingRows(b));
  }

  lemma {:induction false} WaitingRowsAppend(a: seq<Row>, b: seq<Row>)
    ensures WaitingRows(a + b) == WaitingRows(a) + WaitingRows(b)
  {
    if a == [] {
      assert a + b == b;
    } else {
      assert (a + b)[0] == a[0];
      assert (a + b)[1..] == a[1..] + b;
      WaitingRowsAppend(a[1..], b);
    }
  }

  lemma {:induction false} RowIdsAppend(a: seq<Row>, b: seq<Row>)
    ensures RowIds(a + b) == RowIds(a) + RowIds(b)
  {
    if a == [] {
      assert a + b == b;
    } else {
      assert (a + b)[0] == a[0];
      assert (a + b)[1..] == a[1..] + b;
      RowIdsAppend(a[1..], b);
    }
  }

  /**
   * When the selected rows show the table's current statuses, filtering on
   * `waiting` in the page changes nothing: the server starts the same
   * tasks as it would for all the selected ids, since it filters too.
   */
  lemma ClientFilterAgreesWithServer(m: map<nat, Task>, rows: seq<Row>, owner: UserId)
    requires forall k :: k in m ==> m[k].id == k
    requires forall i :: 0 <= i < |rows| ==> rows[i].id in m && m[rows[i].id].status == rows[i].status
    ensures App.StartedAll(m, WaitingIds(rows), owner) == App.StartedAll(m, RowIds(rows), owner)
  {
    var sent := App.StartedIds(m, WaitingIds(rows), owner);
    var all := App.StartedIds(m, RowIds(rows), owner);
    forall k | k in m
      ensures k in sent <==> k in all
    {
      WaitingIdAgrees(m, rows, k);
    }
    assert sent == all;
  }

  /** A task's id is among the waiting rows' ids exactly when it is among the selected ids and the task waits. */
  lemma WaitingIdAgrees(m: map<nat, Task>, rows: seq<Row>, k: nat)
    requires k in m
    requires forall i :: 0 <= i < |rows| ==> rows[i].id in m && m[rows[i].id].status == rows[i].status
    ensures k in WaitingIds(rows) && m[k].status == Waiting <==> k in RowIds(rows) && m[k].status == Waiting
  {
    WaitingIdsMembers(rows, k);
    RowIdsMembers(rows, k);
    if m[k].status == Waiting && k in RowIds(rows) {
      var i :| 0 <= i < |rows| && rows[i].id == k;
      assert rows[i].status == Waiting;
    }
  }

  lemma {:induction false} RowIdsMembers(rows: seq<Row>, x: int)
    ensures x in RowIds(rows) <==> exists i :: 0 <= i < |rows| && rows[i].id == x
  {
    if rows != [] {
      RowIdsMembers(rows[1..], x);
      if x in RowIds(rows[1..]) {
        var i :| 0 <= i < |rows[1..]| && rows[1..][i].id == x;
        assert rows[i + 1] == rows[1..][i];
      }
      if exists i :: 0 <= i < |rows| && rows[i].id == x {
        var i :| 0 <= i < |rows| && rows[i].id == x;
        if i > 0 {
          assert rows[1..][i - 1] == rows[i];
        }
      }
    }
  }
}

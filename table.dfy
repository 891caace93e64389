/** The ingestion script itself: the JobContacts table behind the session's
    connection, the guarded insert, the review loop, the replay and the run
    from the window bounds to the single commit. */
module JobContacts {
  import opened Text
  import opened Stamps
  import opened Contacts

  /** The JobContacts table as the session's connection sees it. */
  class ContactTable {
    /** The rows the session's cursor sees, its own uncommitted inserts included. */
    var rows: seq<Contact>
    /** The rows that outlive the session. */
    var committed: seq<Contact>

    /** Nothing is ever updated or deleted: the committed rows are the first
        rows the cursor sees, and the session's inserts follow them. */
    ghost predicate Valid()
      reads this
    {
      |committed| <= |rows| && rows[..|committed|] == committed
    }

    /** A fresh connection to a table holding `existing`. */
    constructor (existing: seq<Contact>)
      ensures Valid() && rows == existing && committed == existing
    {
      rows, committed := existing, existing;
    }

    /** `_insert_job_contacts`: one guarded insert; reports whether a row was
        added. */
    method InsertJobContact(c: Contact) returns (inserted: bool)
      requires Valid()
      modifies this`rows
      ensures Valid()
      ensures inserted <==> !Stored(old(rows), c)
      ensures rows == AddIfAbsent(old(rows), c)
      ensures UniqueKeys(old(rows)) ==> UniqueKeys(rows)
    {
      inserted := !Stored(rows, c);
      if inserted {
        rows := rows + [c];
      }
      assert rows[..|committed|] == old(rows)[..|committed|];
    }

    /** `conn.commit()`. */
    method Commit()
      requires Valid()
      modifies this`committed
      ensures Valid() && committed == rows == old(rows)
    {
      committed := rows;
    }

    /** The connection goes away without a commit: the session's inserts are
        lost. */
    method Rollback()
      requires Valid()
      modifies this`rows
      ensures Valid() && rows == committed == old(committed)
    {
      rows := committed;
    }

    /** The review loop: for each message in order, read one answer and
        lowercase it; on `l`/`list` insert the message's contact and count the
        attempt, on `s`/`skip` go on, on `q`/`quit` stop. `input()` failing at
        the end of the input ends the loop with `inputEnded`. */
    method ReviewMessages(msgs: seq<Message>, answers: seq<string>)
      returns (count: nat, answered: nat, inputEnded: bool)
      requires Valid()
      modifies this`rows
      ensures Valid()
      ensures var r := RunReview(old(rows), msgs, answers);
              rows == r.rows && count == r.count && answered == r.answered && inputEnded == r.inputEnded
    {
      count, answered, inputEnded := 0, 0, false;
      var i := 0;
      while i < |msgs|
        invariant 0 <= i <= |msgs| && i <= |answers| && answered == i
        invariant Valid()
        invariant var r := RunReview(rows, msgs[i..], answers[i..]);
                  RunReview(old(rows), msgs, answers) == r.(count := r.count + count, answered := r.answered + i)
      {
        if i == |answers| {
          inputEnded := true;
          return;
        }
        var command := Lower(answers[i]);
        ClassifySpec(answers[i]);
        answered := i + 1;
        assert msgs[i..][1..] == msgs[i + 1..] && answers[i..][1..] == answers[i + 1..];
        if command == "l" || command == "list" {
          var _ := InsertJobContact(ContactOf(msgs[i]));
          count := count + 1;
        }
        if command == "s" || command == "skip" {
          i := i + 1;
          continue;
        }
        if command == "q" || command == "quit" {
          break;
        }
        i := i + 1;
      }
    }

    /** `_print_job_contacts`: the rows dated within the window, newest
        first, each followed by one answer; the replay stops after the first
        answer that is exactly `q`. It reads the table and changes nothing. */
    method PrintJobContacts(start: Stamp, end: Stamp, answers: seq<string>)
      returns (shown: seq<Contact>, inputEnded: bool)
      ensures var result := QueryWindow(rows, start, end);
              shown == result[..ReplayLength(|result|, answers)] &&
              (inputEnded <==> FirstQ(answers) == |answers| && |answers| < |result|)
    {
      var result := QueryWindow(rows, start, end);
      shown, inputEnded := [], false;
      var i := 0;
      while i < |result|
        invariant 0 <= i <= |result| && i <= |answers| && shown == result[..i]
        invariant forall j :: 0 <= j < i ==> j < |answers| && answers[j] != "q"
      {
        shown := shown + [result[i]];
        if i == |answers| {
          inputEnded := true;
          return;
        }
        if answers[i] == "q" {
          break;
        }
        i := i + 1;
      }
    }
  }

  /** How a run of the script ends. */
  datatype SessionEnd =
    | BadDate                          // strptime rejected a bound; nothing was opened
    | EndedBeforeCommit                // the input ran out before the commit
    | EndedAfterCommit(count: nat)     // the input ran out at the view prompt or during the replay
    | Finished(count: nat, shown: seq<Contact>)

  /** The window bounds: the first two arguments when there are more than two
      entries in `argv`, otherwise the first two lines of input. */
  function WindowTexts(argv: seq<string>, input: seq<string>): Option<(string, string)> {
    if |argv| > 2 then Some((argv[1], argv[2]))
    else if |input| < 2 then None
    else Some((input[0], input[1]))
  }

  /** The input left for the review once the bounds have been read. */
  function ReviewInput(argv: seq<string>, input: seq<string>): seq<string> {
    if |argv| > 2 then input else if |input| < 2 then [] else input[2..]
  }

  /** The run after the commit, from the committed `rows`, the count and the
      `rest` of the input: the view prompt reads one line, and on `y` the
      replay runs with the lines after it. Running out of input at the prompt
      or during the replay ends the run after the commit. */
  function AfterCommit(count: nat, rows: seq<Contact>, start: Stamp, end: Stamp, rest: seq<string>): SessionEnd {
    if rest == [] then EndedAfterCommit(count)
    else if Lower(rest[0]) != "y" then Finished(count, [])
    else
      var result, answers := QueryWindow(rows, start, end), rest[1..];
      if FirstQ(answers) == |answers| && |answers| < |result| then EndedAfterCommit(count)
      else Finished(count, result[..ReplayLength(|result|, answers)])
  }

  /** A run that finishes shows a leading part of the window's rows, newest
      first, each stored in the committed table and dated within the window;
      it shows nothing unless the operator answered `y`. */
  lemma FinishedShowsWindowRows(count: nat, rows: seq<Contact>, start: Stamp, end: Stamp, rest: seq<string>)
    ensures var o := AfterCommit(count, rows, start, end, rest);
            o.Finished? ==>
              o.count == count && o.shown <= QueryWindow(rows, start, end) &&
              (forall c :: c in o.shown ==> c in rows && InWindow(c.date, start, end)) &&
              (o.shown != [] ==> Lower(rest[0]) == "y")
  {
    var o := AfterCommit(count, rows, start, end, rest);
    if o.Finished? && o.shown != [] {
      var result := QueryWindow(rows, start, end);
      QueryWindowSpec(rows, start, end);
      forall c | c in o.shown ensures c in rows && InWindow(c.date, start, end) {
        var i :| 0 <= i < |o.shown| && o.shown[i] == c;
        assert result[i] == c;
      }
    }
  }

  /** The run once both bounds have parsed: the review over the inbox
      messages of the window, then the commit, the view prompt and the replay,
      reading the operator's `answers`. */
  method ReviewAndReport(table: ContactTable, inbox: seq<Message>, start: Stamp, end: Stamp, answers: seq<string>)
    returns (outcome: SessionEnd)
    requires table.Valid() && table.rows == table.committed
    modifies table
    ensures table.Valid()
    ensures var r := RunReview(old(table.rows), Restrict(inbox, start, end), answers);
            (outcome == EndedBeforeCommit <==> r.inputEnded) &&
            (r.inputEnded ==> table.rows == table.committed == old(table.committed)) &&
            (!r.inputEnded ==>
               table.rows == table.committed == r.rows &&
               outcome == AfterCommit(r.count, r.rows, start, end, answers[r.answered..]))
  {
    var msgs := Restrict(inbox, start, end);
    var count, answered, ended := table.ReviewMessages(msgs, answers);
    if ended {
      table.Rollback();
      return EndedBeforeCommit;
    }
    table.Commit();
    var rest := answers[answered..];
    if rest == [] {
      return EndedAfterCommit(count);
    }
    var shown: seq<Contact> := [];
    if Lower(rest[0]) == "y" {
      var replayEnded;
      shown, replayEnded := table.PrintJobContacts(start, end, rest[1..]);
      if replayEnded {
        return EndedAfterCommit(count);
      }
    }
    outcome := Finished(count, shown);
  }

  /** Both window bounds, once `strptime` has accepted them. */
  function ParsedWindow(argv: seq<string>, input: seq<string>): Option<(Stamp, Stamp)> {
    match WindowTexts(argv, input)
    case None => None
    case Some((startText, endText)) =>
      if Parse(startText).Some? && Parse(endText).Some? then Some((Parse(startText).value, Parse(endText).value))
      else None
  }

  /** Reads the two bounds from `argv` or the input and normalises them;
      `answers` is the input left for the review. */
  method ReadWindow(argv: seq<string>, input: seq<string>) returns (window: Option<(Stamp, Stamp)>, answers: seq<string>)
    ensures window == ParsedWindow(argv, input) && answers == ReviewInput(argv, input)
  {
    var startText, endText;
    if |argv| > 2 {
      startText, endText, answers := argv[1], argv[2], input;
    } else {
      if |input| < 2 {
        return None, [];
      }
      startText, endText, answers := input[0], input[1], input[2..];
    }
    var start, end := Parse(startText), Parse(endText);
    if start.None? || end.None? {
      return None, answers;
    }
    window := Some((start.value, end.value));
  }

  /** One run of the script against `table`, with `argv` the command line
      (the script's name first) and `input` the operator's lines. */
  method RunSession(table: ContactTable, argv: seq<string>, inbox: seq<Message>, input: seq<string>)
    returns (outcome: SessionEnd)
    requires table.Valid() && table.rows == table.committed
    modifies table
    ensures table.Valid()
    ensures WindowTexts(argv, input).None? ==>
              outcome == EndedBeforeCommit && table.rows == table.committed == old(table.committed)
    ensures WindowTexts(argv, input).Some? ==>
              (outcome == BadDate <==> ParsedWindow(argv, input).None?) &&
              (outcome == BadDate ==> table.rows == table.committed == old(table.committed))
    ensures outcome == EndedBeforeCommit ==> table.rows == table.committed == old(table.committed)
    ensures ParsedWindow(argv, input).Some? ==>
              var (start, end) := ParsedWindow(argv, input).value;
              var answers := ReviewInput(argv, input);
              var r := RunReview(old(table.rows), Restrict(inbox, start, end), answers);
              (outcome == EndedBeforeCommit <==> r.inputEnded) &&
              (!r.inputEnded ==>
                 table.rows == table.committed == r.rows &&
                 outcome == AfterCommit(r.count, r.rows, start, end, answers[r.answered..]))
  {
    var window, answers := ReadWindow(argv, input);
    if window.None? {
      return if WindowTexts(argv, input).None? then EndedBeforeCommit else BadDate;
    }
    var (start, end) := window.value;
    outcome := ReviewAndReport(table, inbox, start, end, answers);
  }
}

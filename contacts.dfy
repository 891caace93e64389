/** The job-contact records and the specification of what the ingestion
    script does with them: the guarded insert, the inbox window, the
    load/skip/quit review and the newest-first replay. */
module Contacts {
  import opened Text
  import opened Stamps

  /** One row of the JobContacts table; all four fields form its natural key. */
  datatype Contact = Contact(date: Stamp, sender: string, subject: string, body: string)

  /** An inbox item, its received time already truncated to the minute. */
  datatype Message = Message(received: Stamp, sender: string, subject: string, body: string)

  function ContactOf(m: Message): Contact {
    Contact(m.received, m.sender, m.subject, m.body)
  }

  // ---------------------------------------------------------------------
  // The guarded insert

  /** The `where` clause of the `not exists` guard: equal on all four columns. */
  predicate SameKey(a: Contact, b: Contact) {
    a.date == b.date && a.sender == b.sender && a.subject == b.subject && a.body == b.body
  }

  predicate Stored(rows: seq<Contact>, c: Contact) {
    exists i :: 0 <= i < |rows| && SameKey(rows[i], c)
  }

  /** No two rows share (date, sender, subject, body). */
  predicate UniqueKeys(rows: seq<Contact>) {
    forall i, j :: 0 <= i < j < |rows| ==> !SameKey(rows[i], rows[j])
  }

  /** `insert ... select ... where not exists (...)`: the table after one call. */
  function AddIfAbsent(rows: seq<Contact>, c: Contact): seq<Contact> {
    if Stored(rows, c) then rows else rows + [c]
  }

  /** The number of rows whose key is that of `c`. */
  function Copies(rows: seq<Contact>, c: Contact): nat {
    if rows == [] then 0 else Copies(rows[..|rows| - 1], c) + (if SameKey(rows[|rows| - 1], c) then 1 else 0)
  }

  /** The insert changes the table only when no row has the key: then it adds
      exactly that row at the end and keeps every other row. */
  lemma AddIfAbsentEffect(rows: seq<Contact>, c: Contact)
    ensures Stored(rows, c) ==> AddIfAbsent(rows, c) == rows
    ensures !Stored(rows, c) ==> |AddIfAbsent(rows, c)| == |rows| + 1
    ensures !Stored(rows, c) ==> AddIfAbsent(rows, c)[..|rows|] == rows && AddIfAbsent(rows, c)[|rows|] == c
    ensures Stored(AddIfAbsent(rows, c), c)
  {
    if !Stored(rows, c) {
      var r := AddIfAbsent(rows, c);
      assert SameKey(r[|rows|], c);
    }
  }

  /** The insert keeps the natural key unique. */
  lemma AddIfAbsentKeepsUnique(rows: seq<Contact>, c: Contact)
    requires UniqueKeys(rows)
    ensures UniqueKeys(AddIfAbsent(rows, c))
  {
  }

  lemma {:induction false} CopiesZero(rows: seq<Contact>, c: Contact)
    requires !Stored(rows, c)
    ensures Copies(rows, c) == 0
  {
    if rows != [] {
      var init := rows[..|rows| - 1];
      forall i | 0 <= i < |init| ensures !SameKey(init[i], c) {
        assert init[i] == rows[i];
      }
      CopiesZero(init, c);
    }
  }

  lemma {:induction false} CopiesOfUnique(rows: seq<Contact>, c: Contact)
    requires UniqueKeys(rows) && Stored(rows, c)
    ensures Copies(rows, c) == 1
  {
    var init, last := rows[..|rows| - 1], rows[|rows| - 1];
    if SameKey(last, c) {
      forall i | 0 <= i < |init| ensures !SameKey(init[i], c) {
        assert init[i] == rows[i];
        assert !SameKey(rows[i], rows[|rows| - 1]);
      }
      CopiesZero(init, c);
    } else {
      var i :| 0 <= i < |rows| && SameKey(rows[i], c);
      assert SameKey(init[i], c);
      CopiesOfUnique(init, c);
    }
  }

  /** Inserting the same record a second time changes nothing; when the table
      had no duplicates, exactly one row then has its key. */
  lemma InsertTwiceStoresOnce(rows: seq<Contact>, c: Contact)
    ensures AddIfAbsent(AddIfAbsent(rows, c), c) == AddIfAbsent(rows, c)
    ensures UniqueKeys(rows) ==> Copies(AddIfAbsent(rows, c), c) == 1
  {
    AddIfAbsentEffect(rows, c);
    if UniqueKeys(rows) {
      AddIfAbsentKeepsUnique(rows, c);
      CopiesOfUnique(AddIfAbsent(rows, c), c);
    }
  }

  /** Two records that differ in any one field are both stored. */
  lemma DistinctKeysBothStored(rows: seq<Contact>, a: Contact, b: Contact)
    requires a != b
    ensures Stored(AddIfAbsent(AddIfAbsent(rows, a), b), a)
    ensures Stored(AddIfAbsent(AddIfAbsent(rows, a), b), b)
    ensures !Stored(rows, a) && !Stored(rows, b) ==> |AddIfAbsent(AddIfAbsent(rows, a), b)| == |rows| + 2
  {
    var r1 := AddIfAbsent(rows, a);
    AddIfAbsentEffect(rows, a);
    AddIfAbsentEffect(r1, b);
    var r2 := AddIfAbsent(r1, b);
    var i :| 0 <= i < |r1| && SameKey(r1[i], a);
    assert r2[i] == r1[i];
    if !Stored(rows, a) && !Stored(rows, b) {
      forall j | 0 <= j < |r1| ensures !SameKey(r1[j], b) {
        if j < |rows| { assert r1[j] == rows[j]; } else { assert r1[j] == a; }
      }
    }
  }

  // ---------------------------------------------------------------------
  // The inbox window

  /** The two `Restrict` calls: the messages with start <= received <= end, in
      inbox order. */
  function Restrict(inbox: seq<Message>, start: Stamp, end: Stamp): seq<Message> {
    if inbox == [] then []
    else if InWindow(inbox[0].received, start, end) then [inbox[0]] + Restrict(inbox[1..], start, end)
    else Restrict(inbox[1..], start, end)
  }

  /** The window keeps exactly the messages received within both bounds, and
      keeps them in inbox order (it distributes over concatenation). */
  lemma {:induction false} RestrictSelects(inbox: seq<Message>, more: seq<Message>, start: Stamp, end: Stamp)
    ensures forall m :: m in Restrict(inbox, start, end) <==> m in inbox && InWindow(m.received, start, end)
    ensures Restrict(inbox + more, start, end) == Restrict(inbox, start, end) + Restrict(more, start, end)
  {
    if inbox != [] {
      assert (inbox + more)[1..] == inbox[1..] + more;
      RestrictSelects(inbox[1..], more, start, end);
      assert inbox == [inbox[0]] + inbox[1..];
    } else {
      assert inbox + more == more;
    }
  }

  /** A single message is kept exactly when it was received within the window;
      with the distribution over concatenation this fixes the filter. */
  lemma RestrictSingleton(m: Message, start: Stamp, end: Stamp)
    ensures Restrict([m], start, end) == if InWindow(m.received, start, end) then [m] else []
  {
    assert [m][1..] == [];
  }

  /** Each message received within the window is kept as often as the inbox
      holds it, and any other message not at all. */
  lemma {:induction false} RestrictCount(inbox: seq<Message>, start: Stamp, end: Stamp)
    ensures forall m :: multiset(Restrict(inbox, start, end))[m] ==
                        if InWindow(m.received, start, end) then multiset(inbox)[m] else 0
  {
    if inbox != [] {
      RestrictCount(inbox[1..], start, end);
      assert inbox == [inbox[0]] + inbox[1..];
      assert multiset(inbox) == multiset{inbox[0]} + multiset(inbox[1..]);
    }
  }

  // ---------------------------------------------------------------------
  // The review: one answer per message, load / skip / quit

  datatype Decision = Load | Skip | Quit | Other

  /** `str.lower()` on the ASCII letters. */
  function Lower(s: string): (r: string)
    ensures |r| == |s|
    ensures forall i :: 0 <= i < |s| ==> r[i] == (if 'A' <= s[i] <= 'Z' then (s[i] as int + 32) as char else s[i])
  {
    if s == [] then [] else
    var c := s[0];
    [if 'A' <= c <= 'Z' then (c as int + 32) as char else c] + Lower(s[1..])
  }

  /** The three membership tests after `input().lower()`; `load` is not one of
      the load answers. */
  function Classify(answer: string): Decision {
    var a := Lower(answer);
    if a == "l" || a == "list" then Load
    else if a == "s" || a == "skip" then Skip
    else if a == "q" || a == "quit" then Quit
    else Other
  }

  /** The three tests are exclusive: an answer loads, skips or quits exactly
      when its lowercase is one of that answer's two words. */
  lemma ClassifySpec(answer: string)
    ensures Classify(answer) == Load <==> Lower(answer) in {"l", "list"}
    ensures Classify(answer) == Skip <==> Lower(answer) in {"s", "skip"}
    ensures Classify(answer) == Quit <==> Lower(answer) in {"q", "quit"}
  {
  }

  /** What a review pass leaves behind: the table, the counter, the number of
      messages that were shown and answered, and whether `input()` found the
      end of the input while a message was waiting for an answer. */
  datatype Review = Review(rows: seq<Contact>, count: nat, answered: nat, inputEnded: bool)

  /** The review loop over `msgs`, reading the answers from `answers`. */
  function RunReview(rows: seq<Contact>, msgs: seq<Message>, answers: seq<string>): (r: Review)
    ensures r.count <= r.answered <= |msgs| && r.answered <= |answers|
    ensures r.inputEnded ==> r.answered == |answers| < |msgs|
    decreases |msgs|
  {
    if msgs == [] then Review(rows, 0, 0, false)
    else if answers == [] then Review(rows, 0, 0, true)
    else match Classify(answers[0])
      case Quit => Review(rows, 0, 1, false)
      case Load =>
        var r := RunReview(AddIfAbsent(rows, ContactOf(msgs[0])), msgs[1..], answers[1..]);
        r.(count := r.count + 1, answered := r.answered + 1)
      case _ =>
        var r := RunReview(rows, msgs[1..], answers[1..]);
        r.(answered := r.answered + 1)
  }

  /** The contacts of the messages answered with a load, in order. */
  function LoadedContacts(msgs: seq<Message>, answers: seq<string>): seq<Contact>
    requires |answers| >= |msgs|
  {
    if msgs == [] then []
    else (if Classify(answers[0]) == Load then [ContactOf(msgs[0])] else [])
         + LoadedContacts(msgs[1..], answers[1..])
  }

  /** The table after inserting each contact of `cs` in turn. */
  function AddAll(rows: seq<Contact>, cs: seq<Contact>): seq<Contact>
    decreases |cs|
  {
    if cs == [] then rows else AddAll(AddIfAbsent(rows, cs[0]), cs[1..])
  }

  predicate NoQuitAmong(answers: seq<string>, n: nat) {
    forall i :: 0 <= i < n && i < |answers| ==> Classify(answers[i]) != Quit
  }

  /** Without a quit, every message is shown and answered, exactly the ones
      answered `l`/`list` go to the guarded insert, in order, and the counter is
      the number of those answers. */
  lemma {:induction false} ReviewWithoutQuit(rows: seq<Contact>, msgs: seq<Message>, answers: seq<string>)
    decreases |msgs|
    requires |answers| >= |msgs| && NoQuitAmong(answers, |msgs|)
    ensures RunReview(rows, msgs, answers) ==
            Review(AddAll(rows, LoadedContacts(msgs, answers)), |LoadedContacts(msgs, answers)|, |msgs|, false)
  {
    if msgs != [] {
      assert Classify(answers[0]) != Quit;
      assert NoQuitAmong(answers[1..], |msgs[1..]|) by {
        forall i | 0 <= i < |msgs[1..]| && i < |answers[1..]| ensures Classify(answers[1..][i]) != Quit {
          assert answers[1..][i] == answers[i + 1];
        }
      }
      var next := if Classify(answers[0]) == Load then AddIfAbsent(rows, ContactOf(msgs[0])) else rows;
      ReviewWithoutQuit(next, msgs[1..], answers[1..]);
      var first := if Classify(answers[0]) == Load then [ContactOf(msgs[0])] else [];
      var rest := LoadedContacts(msgs[1..], answers[1..]);
      assert LoadedContacts(msgs, answers) == first + rest;
      assert (first + rest)[|first|..] == rest;
      if first != [] {
        assert (first + rest)[1..] == rest;
        assert AddAll(rows, first + rest) == AddAll(next, rest);
      } else {
        assert first + rest == rest;
      }
    }
  }

  /** The first `q`/`quit`, at message `k`, ends the pass: the pass is the pass
      over the messages before `k`, plus message `k` shown and answered; message
      `k` is not inserted and the later messages and answers play no part. */
  lemma {:induction false} ReviewStopsAtQuit(rows: seq<Contact>, msgs: seq<Message>, answers: seq<string>, k: nat)
    decreases |msgs|
    requires k < |msgs| && k < |answers| && Classify(answers[k]) == Quit && NoQuitAmong(answers, k)
    ensures RunReview(rows, msgs, answers) == RunReview(rows, msgs[..k], answers[..k]).(answered := k + 1)
  {
    if k > 0 {
      assert Classify(answers[0]) != Quit;
      assert NoQuitAmong(answers[1..], k - 1) by {
        forall i | 0 <= i < k - 1 && i < |answers[1..]| ensures Classify(answers[1..][i]) != Quit {
          assert answers[1..][i] == answers[i + 1];
        }
      }
      assert msgs[1..][..k - 1] == msgs[..k][1..];
      assert answers[1..][..k - 1] == answers[..k][1..];
      var next := if Classify(answers[0]) == Load then AddIfAbsent(rows, ContactOf(msgs[0])) else rows;
      ReviewStopsAtQuit(next, msgs[1..], answers[1..], k - 1);
    }
  }

  /** Loads answered before the first quit all survive the pass: it does not
      end for lack of input, and its table is those loads inserted in order. */
  lemma QuitKeepsEarlierLoads(rows: seq<Contact>, msgs: seq<Message>, answers: seq<string>, k: nat)
    requires k < |msgs| && k < |answers| && Classify(answers[k]) == Quit && NoQuitAmong(answers, k)
    ensures !RunReview(rows, msgs, answers).inputEnded
    ensures RunReview(rows, msgs, answers).rows == AddAll(rows, LoadedContacts(msgs[..k], answers[..k]))
    ensures RunReview(rows, msgs, answers).count == |LoadedContacts(msgs[..k], answers[..k])|
  {
    ReviewStopsAtQuit(rows, msgs, answers, k);
    assert NoQuitAmong(answers[..k], k) by {
      forall i | 0 <= i < k && i < |answers[..k]| ensures Classify(answers[..k][i]) != Quit {
        assert answers[..k][i] == answers[i];
      }
    }
    ReviewWithoutQuit(rows, msgs[..k], answers[..k]);
  }

  /** When the answers run out before the messages, with no quit among them,
      `input()` fails at the message after the last answer. */
  lemma {:induction false} ReviewInputEnds(rows: seq<Contact>, msgs: seq<Message>, answers: seq<string>)
    decreases |msgs|
    requires |answers| < |msgs| && NoQuitAmong(answers, |answers|)
    ensures RunReview(rows, msgs, answers).inputEnded
    ensures RunReview(rows, msgs, answers).answered == |answers|
  {
    if answers != [] {
      assert Classify(answers[0]) != Quit;
      assert NoQuitAmong(answers[1..], |answers[1..]|) by {
        forall i | 0 <= i < |answers[1..]| ensures Classify(answers[1..][i]) != Quit {
          assert answers[1..][i] == answers[i + 1];
        }
      }
      var next := if Classify(answers[0]) == Load then AddIfAbsent(rows, ContactOf(msgs[0])) else rows;
      ReviewInputEnds(next, msgs[1..], answers[1..]);
    }
  }

  /** The counter counts load attempts: it never exceeds the messages answered,
      which never exceed the messages or the answers; the table only grows, by
      at most one row per attempt, and keeps its old rows first. */
  lemma {:induction false} ReviewBounds(rows: seq<Contact>, msgs: seq<Message>, answers: seq<string>)
    decreases |msgs|
    ensures var r := RunReview(rows, msgs, answers);
            r.count <= r.answered <= |msgs| && r.answered <= |answers| &&
            |rows| <= |r.rows| <= |rows| + r.count && r.rows[..|rows|] == rows
  {
    if msgs != [] && answers != [] && Classify(answers[0]) != Quit {
      var load := Classify(answers[0]) == Load;
      var next := if load then AddIfAbsent(rows, ContactOf(msgs[0])) else rows;
      AddIfAbsentEffect(rows, ContactOf(msgs[0]));
      ReviewBounds(next, msgs[1..], answers[1..]);
      var r := RunReview(next, msgs[1..], answers[1..]);
      assert RunReview(rows, msgs, answers).rows == r.rows;
      assert RunReview(rows, msgs, answers).count == r.count + (if load then 1 else 0);
      assert r.rows[..|rows|] == r.rows[..|next|][..|rows|];
    }
  }

  /** A review pass keeps the table free of duplicate keys. */
  lemma {:induction false} ReviewKeepsUnique(rows: seq<Contact>, msgs: seq<Message>, answers: seq<string>)
    decreases |msgs|
    requires UniqueKeys(rows)
    ensures UniqueKeys(RunReview(rows, msgs, answers).rows)
  {
    if msgs != [] && answers != [] && Classify(answers[0]) != Quit {
      var next := if Classify(answers[0]) == Load then AddIfAbsent(rows, ContactOf(msgs[0])) else rows;
      AddIfAbsentKeepsUnique(rows, ContactOf(msgs[0]));
      ReviewKeepsUnique(next, msgs[1..], answers[1..]);
    }
  }

  /** `l` and `list` load in any case; `load` is not a load answer. */
  lemma AnswerClasses()
    ensures Classify("LIST") == Load
    ensures Classify("load") == Other
    ensures Classify("Q") == Quit
  {
    assert Lower("LIST") == "list";
    assert Lower("load") == "load";
    assert Lower("Q") == "q";
  }

  lemma {:induction false} LowerIdempotent(s: string)
    ensures Lower(Lower(s)) == Lower(s)
  {
    var once := Lower(s);
    assert forall i :: 0 <= i < |once| ==> !('A' <= once[i] <= 'Z');
  }

  /** The answer is lowercased before the tests, so its case does not matter. */
  lemma ClassifyIgnoresCase(answer: string)
    ensures Classify(Lower(answer)) == Classify(answer)
  {
    LowerIdempotent(answer);
  }

  /** Five messages, answered load, skip, quit and then anything: only the
      first is inserted, one attempt is counted, three messages are shown and
      the last two are never shown. */
  lemma QuitOnThirdOfFive(rows: seq<Contact>, msgs: seq<Message>, answers: seq<string>)
    requires |msgs| == 5 && |answers| >= 3
    requires Classify(answers[0]) == Load && Classify(answers[1]) == Skip && Classify(answers[2]) == Quit
    ensures RunReview(rows, msgs, answers) == Review(AddIfAbsent(rows, ContactOf(msgs[0])), 1, 3, false)
  {
    var r1 := AddIfAbsent(rows, ContactOf(msgs[0]));
    assert RunReview(r1, msgs[2..], answers[2..]) == Review(r1, 0, 1, false);
    assert msgs[1..][1..] == msgs[2..] && answers[1..][1..] == answers[2..];
    assert RunReview(r1, msgs[1..], answers[1..]) == Review(r1, 0, 2, false);
  }

  /** Three messages all answered load, the first one's record already
      stored: three attempts are counted and two rows are added. */
  lemma CountIsAttempts(rows: seq<Contact>, msgs: seq<Message>, answers: seq<string>)
    requires |msgs| == 3 && |answers| >= 3
    requires Classify(answers[0]) == Load && Classify(answers[1]) == Load && Classify(answers[2]) == Load
    requires Stored(rows, ContactOf(msgs[0]))
    requires !Stored(rows, ContactOf(msgs[1])) && !Stored(rows, ContactOf(msgs[2]))
    requires !SameKey(ContactOf(msgs[1]), ContactOf(msgs[2]))
    ensures RunReview(rows, msgs, answers) == Review(rows + [ContactOf(msgs[1]), ContactOf(msgs[2])], 3, 3, false)
  {
    var c1, c2 := ContactOf(msgs[1]), ContactOf(msgs[2]);
    var r2 := rows + [c1];
    assert AddIfAbsent(rows, c1) == r2;
    assert !Stored(r2, c2) by {
      forall j | 0 <= j < |r2| ensures !SameKey(r2[j], c2) {
        if j < |rows| { assert r2[j] == rows[j]; }
      }
    }
    assert AddIfAbsent(r2, c2) == r2 + [c2] == rows + [c1, c2];
    assert msgs[1..][1..] == msgs[2..] && answers[1..][1..] == answers[2..];
    assert msgs[2..][1..] == [];
    assert RunReview(r2 + [c2], msgs[3..], answers[3..]) == Review(r2 + [c2], 0, 0, false);
    assert RunReview(r2, msgs[2..], answers[2..]) == Review(r2 + [c2], 1, 1, false);
    assert RunReview(rows, msgs[1..], answers[1..]) == Review(rows + [c1, c2], 2, 2, false);
  }

  // ---------------------------------------------------------------------
  // The replay: rows of the window, newest first

  /** The rows whose date lies in the window, in table order. */
  function Window(rows: seq<Contact>, start: Stamp, end: Stamp): seq<Contact> {
    if rows == [] then []
    else if InWindow(rows[0].date, start, end) then [rows[0]] + Window(rows[1..], start, end)
    else Window(rows[1..], start, end)
  }

  predicate NewestFirst(s: seq<Contact>) {
    forall i, j :: 0 <= i < j < |s| ==> NotAfter(s[j].date, s[i].date)
  }

  /** Places `c` after every row at least as recent. */
  function InsertByDate(c: Contact, s: seq<Contact>): seq<Contact> {
    if s == [] || !NotAfter(c.date, s[0].date) then [c] + s
    else [s[0]] + InsertByDate(c, s[1..])
  }

  /** `order by DateOfContact desc`. */
  function SortNewestFirst(s: seq<Contact>): seq<Contact> {
    if s == [] then [] else InsertByDate(s[0], SortNewestFirst(s[1..]))
  }

  /** The reporter's query: the window's rows, newest first. */
  function QueryWindow(rows: seq<Contact>, start: Stamp, end: Stamp): seq<Contact> {
    SortNewestFirst(Window(rows, start, end))
  }

  lemma {:induction false} WindowSelects(rows: seq<Contact>, start: Stamp, end: Stamp)
    ensures forall c :: c in Window(rows, start, end) <==> c in rows && InWindow(c.date, start, end)
  {
    if rows != [] {
      WindowSelects(rows[1..], start, end);
      assert rows == [rows[0]] + rows[1..];
    }
  }

  /** Each row dated within the window is selected as often as it is stored,
      and any other row not at all. */
  lemma {:induction false} WindowCount(rows: seq<Contact>, start: Stamp, end: Stamp)
    ensures forall c :: multiset(Window(rows, start, end))[c] ==
                        if InWindow(c.date, start, end) then multiset(rows)[c] else 0
  {
    if rows != [] {
      WindowCount(rows[1..], start, end);
      assert rows == [rows[0]] + rows[1..];
      assert multiset(rows) == multiset{rows[0]} + multiset(rows[1..]);
    }
  }

  lemma PrependNewest(x: Contact, r: seq<Contact>)
    requires NewestFirst(r)
    requires forall y :: y in r ==> NotAfter(y.date, x.date)
    ensures NewestFirst([x] + r)
  {
    var s := [x] + r;
    forall i, j | 0 <= i < j < |s| ensures NotAfter(s[j].date, s[i].date) {
      assert s[j] == r[j - 1];
      if i > 0 { assert s[i] == r[i - 1]; }
    }
  }

  lemma {:induction false} InsertByDateSorted(c: Contact, s: seq<Contact>)
    requires NewestFirst(s)
    ensures NewestFirst(InsertByDate(c, s))
    ensures multiset(InsertByDate(c, s)) == multiset(s) + multiset{c}
  {
    assert s != [] ==> s == [s[0]] + s[1..];
    if s == [] || !NotAfter(c.date, s[0].date) {
      forall y | y in s ensures NotAfter(y.date, c.date) {
        var k :| 0 <= k < |s| && s[k] == y;
        assert k == 0 || NotAfter(s[k].date, s[0].date);
      }
      PrependNewest(c, s);
    } else {
      var tail := s[1..];
      assert NewestFirst(tail) by {
        forall i, j | 0 <= i < j < |tail| ensures NotAfter(tail[j].date, tail[i].date) {
          assert tail[j] == s[j + 1] && tail[i] == s[i + 1];
        }
      }
      InsertByDateSorted(c, tail);
      var r := InsertByDate(c, tail);
      forall y | y in r ensures NotAfter(y.date, s[0].date) {
        assert y in multiset(r);
        if y != c {
          var k :| 0 <= k < |tail| && tail[k] == y;
          assert s[k + 1] == y;
        }
      }
      PrependNewest(s[0], r);
    }
  }

  lemma {:induction false} SortNewestFirstSpec(s: seq<Contact>)
    ensures NewestFirst(SortNewestFirst(s))
    ensures multiset(SortNewestFirst(s)) == multiset(s)
  {
    if s != [] {
      SortNewestFirstSpec(s[1..]);
      InsertByDateSorted(s[0], SortNewestFirst(s[1..]));
      assert s == [s[0]] + s[1..];
    }
  }

  /** The replay shows the stored rows dated within the window, every one of
      them as often as it is stored, and newest first. */
  lemma QueryWindowSpec(rows: seq<Contact>, start: Stamp, end: Stamp)
    ensures NewestFirst(QueryWindow(rows, start, end))
    ensures multiset(QueryWindow(rows, start, end)) == multiset(Window(rows, start, end))
    ensures forall c :: c in QueryWindow(rows, start, end) <==> c in rows && InWindow(c.date, start, end)
    ensures forall c :: multiset(QueryWindow(rows, start, end))[c] ==
                        if InWindow(c.date, start, end) then multiset(rows)[c] else 0
  {
    SortNewestFirstSpec(Window(rows, start, end));
    WindowSelects(rows, start, end);
    WindowCount(rows, start, end);
    forall c ensures c in QueryWindow(rows, start, end) <==> c in Window(rows, start, end) {
      assert c in multiset(QueryWindow(rows, start, end)) <==> c in multiset(Window(rows, start, end));
    }
  }

  /** The position of the first answer that is exactly `q` (no lowercasing), or
      the number of answers when there is none. */
  function FirstQ(answers: seq<string>): (k: nat)
    ensures k <= |answers|
    ensures k < |answers| ==> answers[k] == "q"
    ensures forall i :: 0 <= i < k ==> answers[i] != "q"
  {
    if answers == [] || answers[0] == "q" then 0 else 1 + FirstQ(answers[1..])
  }

  /** How many rows of an `n`-row replay are shown: every row up to and
      including the one answered `q`, or up to the one whose answer is missing. */
  function ReplayLength(n: nat, answers: seq<string>): nat {
    if FirstQ(answers) + 1 < n then FirstQ(answers) + 1 else n
  }

  /** Rows dated 01/01/2024 09:00, 01/15/2024 09:00 and 02/01/2024 09:00: the
      January window replays the second, then the first. */
  lemma JanuaryReplay(rows: seq<Contact>)
    requires |rows| == 3
    requires rows[0].date == Stamp(2024, 1, 1, 9, 0) && rows[1].date == Stamp(2024, 1, 15, 9, 0)
    requires rows[2].date == Stamp(2024, 2, 1, 9, 0)
    ensures QueryWindow(rows, Stamp(2024, 1, 1, 0, 0), Stamp(2024, 1, 31, 23, 59)) == [rows[1], rows[0]]
  {
    var start, end := Stamp(2024, 1, 1, 0, 0), Stamp(2024, 1, 31, 23, 59);
    assert Window(rows[2..], start, end) == [] by {
      assert !InWindow(rows[2].date, start, end);
      assert rows[2..][1..] == [];
    }
    assert rows[1..][1..] == rows[2..];
    assert Window(rows[1..], start, end) == [rows[1]];
    assert Window(rows, start, end) == [rows[0], rows[1]];
    assert SortNewestFirst([rows[1]]) == [rows[1]];
    assert InsertByDate(rows[0], [rows[1]]) == [rows[1], rows[0]];
  }
}

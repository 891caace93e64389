/** The SQL filter utility: its settings from the command line, the statement
    text it reads, and the quoted, separator-joined text it writes for each
    row of the result. */
module SqlFilter {
  import opened Text

  // ---------------------------------------------------------------------
  // Settings

  datatype Settings = Settings(colSep: string, database: string, encoding: string,
                               inFile: string, outFile: string, quote: string)

  /** The values assigned before the options are read. */
  const Defaults := Settings(",", "", "utf-8", "", "", "\"")

  /** One (option, argument) pair as `getopt` returns it. */
  datatype Opt = Opt(name: string, arg: string)

  /** The two characters backslash and `t` stand for a tab. */
  function ExpandTab(sep: string): string {
    if sep == "\\t" then "\t" else sep
  }

  /** One pass of the option loop. */
  function ApplyOption(s: Settings, o: Opt): Settings {
    if o.name == "-c" || o.name == "--colsep" then s.(colSep := ExpandTab(o.arg))
    else if o.name == "-d" || o.name == "--database" then s.(database := o.arg)
    else if o.name == "-e" || o.name == "--encoding" then s.(encoding := o.arg)
    else if o.name == "-i" || o.name == "--infile" then s.(inFile := o.arg)
    else if o.name == "-o" || o.name == "--outfile" then s.(outFile := o.arg)
    else if o.name == "-q" || o.name == "--quote" then s.(quote := o.arg)
    else s
  }

  /** The option loop over `opts`, from `s`. */
  function ApplyOptions(s: Settings, opts: seq<Opt>): Settings
    decreases |opts|
  {
    if opts == [] then s else ApplyOption(ApplyOptions(s, opts[..|opts| - 1]), opts[|opts| - 1])
  }

  /** The option loop of the script: each recognised option reassigns its own
      setting. */
  method ReadOptions(opts: seq<Opt>) returns (s: Settings)
    ensures s == ApplyOptions(Defaults, opts)
  {
    var colSep, database, encoding, inFile, outFile, quote := ",", "", "utf-8", "", "", "\"";
    for k := 0 to |opts|
      invariant Settings(colSep, database, encoding, inFile, outFile, quote) == ApplyOptions(Defaults, opts[..k])
    {
      assert opts[..k + 1][..k] == opts[..k];
      var opt, arg := opts[k].name, opts[k].arg;
      if opt == "-c" || opt == "--colsep" {
        colSep := arg;
        if colSep == "\\t" {
          colSep := "\t";
        }
      } else if opt == "-d" || opt == "--database" {
        database := arg;
      } else if opt == "-e" || opt == "--encoding" {
        encoding := arg;
      } else if opt == "-i" || opt == "--infile" {
        inFile := arg;
      } else if opt == "-o" || opt == "--outfile" {
        outFile := arg;
      } else if opt == "-q" || opt == "--quote" {
        quote := arg;
      }
    }
    assert opts[..|opts|] == opts;
    s := Settings(colSep, database, encoding, inFile, outFile, quote);
  }

  /** The six settings, to speak of one of them at a time. */
  datatype Key = ColSep | Database | Encoding | InFile | OutFile | Quote

  /** The setting an option name stands for, short and long spellings alike. */
  function KeyOf(name: string): Option<Key> {
    match name
    case "-c" => Some(ColSep)
    case "--colsep" => Some(ColSep)
    case "-d" => Some(Database)
    case "--database" => Some(Database)
    case "-e" => Some(Encoding)
    case "--encoding" => Some(Encoding)
    case "-i" => Some(InFile)
    case "--infile" => Some(InFile)
    case "-o" => Some(OutFile)
    case "--outfile" => Some(OutFile)
    case "-q" => Some(Quote)
    case "--quote" => Some(Quote)
    case _ => None
  }

  function Get(s: Settings, k: Key): string {
    match k
    case ColSep => s.colSep
    case Database => s.database
    case Encoding => s.encoding
    case InFile => s.inFile
    case OutFile => s.outFile
    case Quote => s.quote
  }

  /** The value an option's argument gives its setting. */
  function ValueOf(k: Key, arg: string): string {
    if k == ColSep then ExpandTab(arg) else arg
  }

  /** One option sets its own setting and leaves the other five alone. */
  lemma ApplyOptionSetsOwn(s: Settings, o: Opt, k: Key)
    ensures Get(ApplyOption(s, o), k) == if KeyOf(o.name) == Some(k) then ValueOf(k, o.arg) else Get(s, k)
  {
    var n := o.name;
    if n == "-c" || n == "--colsep" {
      assert KeyOf(n) == Some(ColSep);
    } else if n == "-d" || n == "--database" {
      assert KeyOf(n) == Some(Database);
    } else if n == "-e" || n == "--encoding" {
      assert KeyOf(n) == Some(Encoding);
    } else if n == "-i" || n == "--infile" {
      assert KeyOf(n) == Some(InFile);
    } else if n == "-o" || n == "--outfile" {
      assert KeyOf(n) == Some(OutFile);
    } else if n == "-q" || n == "--quote" {
      assert KeyOf(n) == Some(Quote);
    } else {
      assert KeyOf(n) == None;
    }
  }

  /** A setting no option names keeps its starting value. */
  lemma {:induction false} UnnamedSettingKept(s: Settings, opts: seq<Opt>, k: Key)
    requires forall i :: 0 <= i < |opts| ==> KeyOf(opts[i].name) != Some(k)
    ensures Get(ApplyOptions(s, opts), k) == Get(s, k)
    decreases |opts|
  {
    if opts != [] {
      var init := opts[..|opts| - 1];
      assert forall i :: 0 <= i < |init| ==> init[i] == opts[i];
      UnnamedSettingKept(s, init, k);
      ApplyOptionSetsOwn(ApplyOptions(s, init), opts[|opts| - 1], k);
    }
  }

  /** A setting is that of the last option naming it: a later option overrides
      an earlier one. */
  lemma {:induction false} LastOptionWins(s: Settings, opts: seq<Opt>, k: Key, i: nat)
    requires i < |opts| && KeyOf(opts[i].name) == Some(k)
    requires forall j :: i < j < |opts| ==> KeyOf(opts[j].name) != Some(k)
    ensures Get(ApplyOptions(s, opts), k) == ValueOf(k, opts[i].arg)
    decreases |opts|
  {
    var init := opts[..|opts| - 1];
    ApplyOptionSetsOwn(ApplyOptions(s, init), opts[|opts| - 1], k);
    if i < |opts| - 1 {
      assert forall j :: 0 <= j < |init| ==> init[j] == opts[j];
      LastOptionWins(s, init, k, i);
    }
  }

  // ---------------------------------------------------------------------
  // Start-up checks

  datatype Startup = ShowSyntax | Proceed(settings: Settings)

  /** `len(sys.argv) < 2` prints the syntax and exits; so does a missing
      `--database`, once the options are read. */
  function Start(argCount: nat, opts: seq<Opt>): Startup {
    if argCount < 2 then ShowSyntax
    else
      var s := ApplyOptions(Defaults, opts);
      if s.database == "" then ShowSyntax else Proceed(s)
  }

  /** The script goes on exactly when it has an argument and some option names
      a database, the last such option naming a non-empty one. */
  lemma StartNeedsDatabase(argCount: nat, opts: seq<Opt>)
    ensures Start(argCount, opts).Proceed? ==> argCount >= 2 && exists i :: 0 <= i < |opts| && KeyOf(opts[i].name) == Some(Database)
    ensures Start(argCount, opts).Proceed? <==> argCount >= 2 && ApplyOptions(Defaults, opts).database != ""
  {
    if Start(argCount, opts).Proceed? && forall i :: 0 <= i < |opts| ==> KeyOf(opts[i].name) != Some(Database) {
      UnnamedSettingKept(Defaults, opts, Database);
    }
  }

  // ---------------------------------------------------------------------
  // The statement

  /** The lines joined in order. */
  function Concat(lines: seq<string>): string {
    if lines == [] then "" else Concat(lines[..|lines| - 1]) + lines[|lines| - 1]
  }

  /** The lines of a text as `readlines()` or iterating a stream yields them:
      each keeps its newline, and the last one may have none. */
  function SplitLines(text: string): seq<string>
    decreases |text|
  {
    if text == [] then []
    else
      var k := IndexOf(text, '\n');
      if k == |text| then [text] else [text[..k + 1]] + SplitLines(text[k + 1..])
  }

  lemma {:induction false} ConcatPrepend(line: string, lines: seq<string>)
    ensures Concat([line] + lines) == line + Concat(lines)
    decreases |lines|
  {
    if lines != [] {
      var init := lines[..|lines| - 1];
      assert ([line] + lines)[..|lines|] == [line] + init;
      ConcatPrepend(line, init);
    }
  }

  /** Joining the lines of a text gives the text back: the statement is the
      whole of the input. */
  lemma {:induction false} ConcatSplitLines(text: string)
    ensures Concat(SplitLines(text)) == text
    decreases |text|
  {
    if text != [] {
      var k := IndexOf(text, '\n');
      if k == |text| {
        assert Concat([text]) == Concat([]) + text;
      } else {
        var rest := text[k + 1..];
        ConcatSplitLines(rest);
        ConcatPrepend(text[..k + 1], SplitLines(rest));
        assert text == text[..k + 1] + rest;
      }
    }
  }

  /** Every line but the last ends in a newline, and that is its only one. */
  lemma {:induction false} SplitLinesEndInNewline(text: string)
    ensures forall i :: 0 <= i < |SplitLines(text)| - 1 ==>
              |SplitLines(text)[i]| > 0 && SplitLines(text)[i][|SplitLines(text)[i]| - 1] == '\n'
    ensures forall i, j :: 0 <= i < |SplitLines(text)| && 0 <= j < |SplitLines(text)[i]| - 1 ==>
              SplitLines(text)[i][j] != '\n'
    decreases |text|
  {
    if text != [] {
      var k := IndexOf(text, '\n');
      if k < |text| {
        var rest := text[k + 1..];
        SplitLinesEndInNewline(rest);
        var lines := SplitLines(text);
        var tail := SplitLines(rest);
        assert lines == [text[..k + 1]] + tail;
        forall i | 1 <= i < |lines| ensures lines[i] == tail[i - 1] { }
      }
    }
  }

  /** `SQL_STMT += line` over every line read. */
  method ReadStatement(lines: seq<string>) returns (statement: string)
    ensures statement == Concat(lines)
  {
    statement := "";
    for k := 0 to |lines|
      invariant statement == Concat(lines[..k])
    {
      assert lines[..k + 1][..k] == lines[..k];
      statement := statement + lines[k];
    }
    assert lines[..|lines|] == lines;
  }

  // ---------------------------------------------------------------------
  // Rendering a result set

  function Quoted(quote: string, v: string): string {
    quote + v + quote
  }

  function QuoteAll(quote: string, row: seq<string>): (r: seq<string>)
    ensures |r| == |row|
  {
    seq(|row|, i requires 0 <= i < |row| => Quoted(quote, row[i]))
  }

  /** The cells with `sep` between consecutive ones and none after the last. */
  function Join(sep: string, cells: seq<string>): string
    decreases |cells|
  {
    if cells == [] then ""
    else if |cells| == 1 then cells[0]
    else Join(sep, cells[..|cells| - 1]) + sep + cells[|cells| - 1]
  }

  /** One row of output: the quoted values joined by the separator and ended by
      one newline; an empty row gives no text at all. */
  function RenderRow(quote: string, sep: string, row: seq<string>): string {
    if row == [] then "" else Join(sep, QuoteAll(quote, row)) + "\n"
  }

  function RenderRows(quote: string, sep: string, rows: seq<seq<string>>): string
    decreases |rows|
  {
    if rows == [] then "" else RenderRows(quote, sep, rows[..|rows| - 1]) + RenderRow(quote, sep, rows[|rows| - 1])
  }

  /** What the inner loop has written after the first `i` values of a row. */
  function RowPrefix(quote: string, sep: string, row: seq<string>, i: nat): string
    requires i <= |row|
  {
    if i == 0 then ""
    else RowPrefix(quote, sep, row, i - 1) + Quoted(quote, row[i - 1]) + (if i - 1 < |row| - 1 then sep else "\n")
  }

  lemma {:induction false} RowPrefixJoin(quote: string, sep: string, row: seq<string>, i: nat)
    requires 1 <= i <= |row|
    ensures RowPrefix(quote, sep, row, i) == Join(sep, QuoteAll(quote, row[..i])) + (if i < |row| then sep else "\n")
  {
    var cells := QuoteAll(quote, row[..i]);
    if i > 1 {
      RowPrefixJoin(quote, sep, row, i - 1);
      assert cells[..i - 1] == QuoteAll(quote, row[..i - 1]);
    }
  }

  lemma RowPrefixStep(quote: string, sep: string, row: seq<string>, i: nat, before: string, out: string)
    requires i < |row| && out == before + RowPrefix(quote, sep, row, i)
    ensures out + (quote + row[i] + quote + (if i < |row| - 1 then sep else "\n")) == before + RowPrefix(quote, sep, row, i + 1)
  {
  }

  lemma RenderRowsStep(quote: string, sep: string, rows: seq<seq<string>>, r: nat)
    requires r < |rows|
    ensures RenderRows(quote, sep, rows[..r + 1]) == RenderRows(quote, sep, rows[..r]) + RenderRow(quote, sep, rows[r])
  {
    assert rows[..r + 1][..r] == rows[..r];
  }

  /** The inner loop writes exactly the row's rendering. */
  lemma RowPrefixComplete(quote: string, sep: string, row: seq<string>)
    ensures RowPrefix(quote, sep, row, |row|) == RenderRow(quote, sep, row)
  {
    if row != [] {
      RowPrefixJoin(quote, sep, row, |row|);
      assert row[..|row|] == row;
    }
  }

  /** The file path: `out.write` of each quoted value followed by the
      separator, or by a newline after the last value of the row. */
  method WriteRows(quote: string, sep: string, rows: seq<seq<string>>) returns (out: string)
    ensures out == RenderRows(quote, sep, rows)
  {
    out := "";
    for r := 0 to |rows|
      invariant out == RenderRows(quote, sep, rows[..r])
    {
      var row := rows[r];
      var before := out;
      for i := 0 to |row|
        invariant out == before + RowPrefix(quote, sep, row, i)
      {
        if i < |row| - 1 {
          RowPrefixStep(quote, sep, row, i, before, out);
          out := out + (quote + row[i] + quote + sep);
        } else {
          RowPrefixStep(quote, sep, row, i, before, out);
          out := out + (quote + row[i] + quote + "\n");
        }
      }
      RowPrefixComplete(quote, sep, row);
      RenderRowsStep(quote, sep, rows, r);
    }
    assert rows[..|rows|] == rows;
  }

  /** `print(text, end=...)`: the text followed by `end`, a newline by default. */
  function Print(text: string, end: string): string {
    text + end
  }

  /** The console path: `print(..., end='')` for every value but the last of a
      row, a plain `print` for the last. It writes the same text as the file
      path. */
  method PrintRows(quote: string, sep: string, rows: seq<seq<string>>) returns (out: string)
    ensures out == RenderRows(quote, sep, rows)
  {
    out := "";
    for r := 0 to |rows|
      invariant out == RenderRows(quote, sep, rows[..r])
    {
      var row := rows[r];
      var before := out;
      for i := 0 to |row|
        invariant out == before + RowPrefix(quote, sep, row, i)
      {
        if i < |row| - 1 {
          RowPrefixStep(quote, sep, row, i, before, out);
          out := out + Print(quote + row[i] + quote + sep, "");
        } else {
          RowPrefixStep(quote, sep, row, i, before, out);
          out := out + Print(quote + row[i] + quote, "\n");
        }
      }
      RowPrefixComplete(quote, sep, row);
      RenderRowsStep(quote, sep, rows, r);
    }
    assert rows[..|rows|] == rows;
  }

  function TotalLength(row: seq<string>): nat
    decreases |row|
  {
    if row == [] then 0 else TotalLength(row[..|row| - 1]) + |row[|row| - 1]|
  }

  lemma {:induction false} JoinLength(quote: string, sep: string, row: seq<string>)
    requires row != []
    ensures |Join(sep, QuoteAll(quote, row))| == TotalLength(row) + 2 * |quote| * |row| + |sep| * (|row| - 1)
    decreases |row|
  {
    var n := |row|;
    if n > 1 {
      var cells := QuoteAll(quote, row);
      assert cells[..n - 1] == QuoteAll(quote, row[..n - 1]);
      JoinLength(quote, sep, row[..n - 1]);
      assert 2 * |quote| * n == 2 * |quote| * (n - 1) + 2 * |quote|;
      assert |sep| * (n - 1) == |sep| * (n - 2) + |sep|;
    } else {
      assert row[..0] == [];
    }
  }

  /** A non-empty row's rendering is as long as its values together, plus two
      quotes per value, one separator between each two values and the newline. */
  lemma RenderRowLength(quote: string, sep: string, row: seq<string>)
    requires row != []
    ensures |RenderRow(quote, sep, row)| == TotalLength(row) + 2 * |quote| * |row| + |sep| * (|row| - 1) + 1
  {
    JoinLength(quote, sep, row);
  }

  /** Nothing is escaped: with the default separator and no quotes, a row with
      one value holding a comma renders like a row of two values. */
  lemma RenderingIsAmbiguous()
    ensures RenderRow("", ",", ["a,b"]) == RenderRow("", ",", ["a", "b"])
  {
    var two, one := QuoteAll("", ["a", "b"]), QuoteAll("", ["a,b"]);
    assert Quoted("", "a") == "a" && Quoted("", "b") == "b" && Quoted("", "a,b") == "a,b";
    assert two[0] == "a" && two[1] == "b" && one[0] == "a,b";
    assert two == ["a", "b"] && one == ["a,b"];
    assert Join(",", ["a", "b"]) == Join(",", ["a"]) + "," + "b";
  }

  // ---------------------------------------------------------------------
  // One run

  /** How a run ends: the syntax message (exit status 1) before anything is
      read, a missing input file (exit status 1), or the rendered rows. */
  datatype RunEnd = SyntaxShown | NoInputFile | Rendered(statement: string, toFile: bool, text: string)

  /** One run with a result set: `files` stands for the file system (each
      file's text), `stdin` for the piped text and `query` for the database
      answering a statement. */
  method Run(argCount: nat, opts: seq<Opt>, files: map<string, string>, stdin: string,
             query: string -> seq<seq<string>>)
    returns (r: RunEnd)
    ensures Start(argCount, opts) == ShowSyntax <==> r == SyntaxShown
    ensures r.Rendered? ==>
              var s := ApplyOptions(Defaults, opts);
              var text := if s.inFile != "" && s.inFile in files then files[s.inFile] else stdin;
              Start(argCount, opts) == Proceed(s) && (s.inFile != "" ==> s.inFile in files) &&
              r == Rendered(text, s.outFile != "", RenderRows(s.quote, s.colSep, query(text)))
    ensures r == NoInputFile <==> Start(argCount, opts).Proceed? && Start(argCount, opts).settings.inFile != "" &&
                                  Start(argCount, opts).settings.inFile !in files
  {
    if argCount < 2 {
      return SyntaxShown;
    }
    var s := ReadOptions(opts);
    if s.database == "" {
      return SyntaxShown;
    }
    var text;
    if s.inFile != "" {
      if s.inFile !in files {
        return NoInputFile;
      }
      text := files[s.inFile];
    } else {
      text := stdin;
    }
    var statement := ReadStatement(SplitLines(text));
    ConcatSplitLines(text);
    var resultSet := query(statement);
    var output;
    if s.outFile != "" {
      output := WriteRows(s.quote, s.colSep, resultSet);
    } else {
      output := PrintRows(s.quote, s.colSep, resultSet);
    }
    r := Rendered(statement, s.outFile != "", output);
  }
}

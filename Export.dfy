/**
 * The text `exportToCSV` builds before handing it to the download: a header
 * line followed by the rows of the full roster, joined by line feeds.
 * Text cells are wrapped in double quotes and embedded quotes are not doubled,
 * so a `"` inside a value breaks the cell structure; commas and line breaks
 * stay inside their quoted cell. The text has one line per record when no
 * value holds a line break.
 */
module Export {
  import opened Text
  import opened Employees

  /** The column names of the export, in order. */
  const ColumnNames: seq<string> := ["ID", "Name", "Email", "Department", "Skills", "Certified"]

  /** The header line: `headers.join(',')`. */
  const Header: string := Join(ColumnNames, ",")

  /** The header line spelled out. */
  lemma HeaderText()
    ensures Header == "ID,Name,Email,Department,Skills,Certified"
  {
    JoinSix(ColumnNames, ",");
    assert "ID" + "," + "Name" == "ID,Name";
    assert "ID,Name" + "," + "Email" == "ID,Name,Email";
    assert "ID,Name,Email" + "," + "Department" == "ID,Name,Email,Department";
    assert "ID,Name,Email,Department" + "," + "Skills" == "ID,Name,Email,Department,Skills";
    assert "ID,Name,Email,Department,Skills" + "," + "Certified" == "ID,Name,Email,Department,Skills,Certified";
  }

  /** The header holds no line break. */
  lemma HeaderIsOneLine()
    ensures '\n' !in Header
  {
    assert forall k :: 0 <= k < |ColumnNames| ==> '\n' !in ColumnNames[k];
    JoinAvoids(ColumnNames, ",", '\n');
  }

  /** The header splits back at its commas into the six column names. */
  lemma HeaderCells()
    ensures Split(Header, ',') == ColumnNames
  {
    assert forall k :: 0 <= k < |ColumnNames| ==> ',' !in ColumnNames[k];
    SplitJoin(ColumnNames, ',');
  }

  function Quoted(s: string): (r: string)
    ensures |r| == |s| + 2 && r[0] == '"' && r[|r| - 1] == '"'
  {
    "\"" + s + "\""
  }

  /** How `Array.prototype.join` renders a boolean. */
  function BoolText(b: bool): (r: string)
    ensures b <==> r == "true"
    ensures !b <==> r == "false"
  {
    if b then "true" else "false"
  }

  /** The six cells of a record's line, before they are joined by commas. */
  function Cells(e: Employee): (r: seq<string>)
    ensures |r| == 6
    ensures forall i :: 0 <= i < |r[0]| ==> r[0][i] == '-' || '0' <= r[0][i] <= '9'
    ensures forall k :: 1 <= k <= 4 ==> |r[k]| >= 2 && r[k][0] == '"' && r[k][|r[k]| - 1] == '"'
    ensures r[5] == "true" || r[5] == "false"
  {
    [ IntToString(e.id),
      Quoted(e.name),
      Quoted(e.email),
      Quoted(e.department),
      Quoted(Join(e.skills, "; ")),
      BoolText(e.certified) ]
  }

  /** A record's line: it begins with the id and ends with the certified flag. */
  function Row(e: Employee): (r: string)
    ensures StartsWith(r, IntToString(e.id)) && EndsWith(r, BoolText(e.certified))
  {
    JoinEnds(Cells(e), ",");
    Join(Cells(e), ",")
  }

  function Rows(es: seq<Employee>): (r: seq<string>)
    ensures |r| == |es|
  {
    seq(|es|, i requires 0 <= i < |es| => Row(es[i]))
  }

  /** `[headers.join(','), ...rows].join('\n')` over the full roster. */
  function CsvText(es: seq<Employee>): (r: string)
    ensures StartsWith(r, Header)
    ensures EndsWith(r, if es == [] then Header else Row(es[|es| - 1]))
  {
    LinesStart(Header, Rows(es), "\n");
    LinesEnd(es);
    Join([Header] + Rows(es), "\n")
  }

  /** A list of lines led by `h` joins to a text that begins with `h`. */
  lemma LinesStart(h: string, rs: seq<string>, sep: string)
    ensures StartsWith(Join([h] + rs, sep), h)
  {
    assert ([h] + rs)[0] == h;
    JoinEnds([h] + rs, sep);
  }

  /** The export ends with the last employee's row, or with the header for an empty roster. */
  lemma LinesEnd(es: seq<Employee>)
    ensures EndsWith(Join([Header] + Rows(es), "\n"), if es == [] then Header else Row(es[|es| - 1]))
  {
    var rs := Rows(es);
    if es == [] {
      assert rs == [];
      LastLine(Header, rs, "\n");
    } else {
      assert rs[|rs| - 1] == Row(es[|es| - 1]);
      LastLine(Header, rs, "\n");
    }
  }

  /** A list of lines led by `h` joins to a text that ends with its last line. */
  lemma LastLine(h: string, rs: seq<string>, sep: string)
    ensures EndsWith(Join([h] + rs, sep), if rs == [] then h else rs[|rs| - 1])
  {
    var lines := [h] + rs;
    assert lines[|lines| - 1] == if rs == [] then h else rs[|rs| - 1];
    JoinEnds(lines, sep);
  }

  /** The record's text fields contain no character `c`. */
  predicate FreeOf(e: Employee, c: char) {
    c !in e.name && c !in e.email && c !in e.department
    && forall k :: 0 <= k < |e.skills| ==> c !in e.skills[k]
  }

  lemma {:induction false} CellsFreeOf(e: Employee, c: char)
    requires FreeOf(e, c) && c != '"' && c != '-' && !('0' <= c <= '9') && c !in "; " && c !in "truefals"
    ensures forall k :: 0 <= k < |Cells(e)| ==> c !in Cells(e)[k]
  {
    JoinAvoids(e.skills, "; ", c);
  }

  /** A record whose fields have no line break gives one line. */
  lemma RowIsOneLine(e: Employee)
    requires FreeOf(e, '\n')
    ensures '\n' !in Row(e)
  {
    CellsFreeOf(e, '\n');
    JoinAvoids(Cells(e), ",", '\n');
  }

  /**
   * When no field holds a line break, the export has exactly one line more
   * than the roster has records: the header, then each record's row in roster
   * order.
   */
  lemma CsvLines(es: seq<Employee>)
    requires forall i :: 0 <= i < |es| ==> FreeOf(es[i], '\n')
    ensures |Split(CsvText(es), '\n')| == 1 + |es|
    ensures Split(CsvText(es), '\n')[0] == Header
    ensures forall i :: 0 <= i < |es| ==> Split(CsvText(es), '\n')[i + 1] == Row(es[i])
  {
    var lines := [Header] + Rows(es);
    LinesAreOneLine(es);
    assert CsvText(es) == Join(lines, "\n");
    SplitJoin(lines, '\n');
  }

  lemma LinesAreOneLine(es: seq<Employee>)
    requires forall i :: 0 <= i < |es| ==> FreeOf(es[i], '\n')
    ensures forall k :: 0 <= k < |[Header] + Rows(es)| ==> '\n' !in ([Header] + Rows(es))[k]
  {
    var lines := [Header] + Rows(es);
    HeaderIsOneLine();
    forall k | 0 <= k < |lines| ensures '\n' !in lines[k] {
      if k > 0 {
        RowIsOneLine(es[k - 1]);
      }
    }
  }

  /**
   * When no field holds a comma, a row splits at its commas into exactly the
   * six cells: the bare id, the four quoted texts and the bare boolean.
   */
  lemma RowCells(e: Employee)
    requires FreeOf(e, ',')
    ensures Split(Row(e), ',') == Cells(e)
    ensures |Split(Row(e), ',')| == 6
  {
    CellsFreeOf(e, ',');
    SplitJoin(Cells(e), ',');
  }

  /** Six cells joined: each neighbouring pair separated once. */
  lemma JoinSix(c: seq<string>, sep: string)
    requires |c| == 6
    ensures Join(c, sep) == c[0] + sep + c[1] + sep + c[2] + sep + c[3] + sep + c[4] + sep + c[5]
  {
    assert c[4..][1..] == c[5..] && c[5..] == [c[5]];
    assert Join(c[4..], sep) == c[4] + sep + c[5];
    assert c[3..][1..] == c[4..];
    assert Join(c[3..], sep) == c[3] + sep + Join(c[4..], sep);
    assert c[2..][1..] == c[3..];
    assert Join(c[2..], sep) == c[2] + sep + Join(c[3..], sep);
    assert c[1..][1..] == c[2..];
    assert Join(c[1..], sep) == c[1] + sep + Join(c[2..], sep);
  }

  /** A row spelled out: the six cells with a comma between neighbours. */
  lemma RowText(e: Employee)
    ensures Row(e) == IntToString(e.id) + "," + Quoted(e.name) + "," + Quoted(e.email) + ","
                      + Quoted(e.department) + "," + Quoted(Join(e.skills, "; ")) + "," + BoolText(e.certified)
  {
    JoinSix(Cells(e), ",");
  }

  /** The export of the seed roster: the header, then the three sample records in order. */
  lemma SeedCsv()
    ensures CsvText(Seed()) ==
      Header + "\n" + Row(Seed()[0]) + "\n" + Row(Seed()[1]) + "\n" + Row(Seed()[2])
  {
    CsvOfThree(Seed());
  }

  lemma CsvOfThree(es: seq<Employee>)
    requires |es| == 3
    ensures CsvText(es) == Header + "\n" + Row(es[0]) + "\n" + Row(es[1]) + "\n" + Row(es[2])
  {
    var lines := [Header] + Rows(es);
    assert CsvText(es) == Join(lines, "\n");
    JoinFour(lines, "\n");
    assert lines[0] == Header && lines[1] == Row(es[0]) && lines[2] == Row(es[1]) && lines[3] == Row(es[2]);
  }

  /** Four lines joined: each neighbouring pair separated once. */
  lemma JoinFour(c: seq<string>, sep: string)
    requires |c| == 4
    ensures Join(c, sep) == c[0] + sep + c[1] + sep + c[2] + sep + c[3]
  {
    assert c[2..][1..] == c[3..] && c[3..] == [c[3]];
    assert Join(c[2..], sep) == c[2] + sep + c[3];
    assert c[1..][1..] == c[2..];
    assert Join(c[1..], sep) == c[1] + sep + Join(c[2..], sep);
  }

  /** The cells of the three seed rows: bare ids and booleans, quoted texts, skills joined by "; ". */
  lemma SeedCells()
    ensures Cells(Seed()[0]) == ["1", Quoted("Aisha Khan"), Quoted("aisha@technova.com"), Quoted("HR"),
                                 Quoted("HTML; CSS"), "true"]
    ensures Cells(Seed()[1]) == ["2", Quoted("Bob Smith"), Quoted("bob@technova.com"), Quoted("Engineering"),
                                 Quoted("JavaScript; Python; SQL"), "false"]
    ensures Cells(Seed()[2]) == ["3", Quoted("Charlie Jain"), Quoted("charlie@technova.com"), Quoted("Sales"),
                                 Quoted("CSS; JavaScript"), "true"]
  {
    SmallIds();
    SeedSkillsJoined();
  }

  lemma SmallIds()
    ensures IntToString(1) == "1" && IntToString(2) == "2" && IntToString(3) == "3"
  {
  }

  lemma SeedSkillsJoined()
    ensures Join(Seed()[0].skills, "; ") == "HTML; CSS"
    ensures Join(Seed()[1].skills, "; ") == "JavaScript; Python; SQL"
    ensures Join(Seed()[2].skills, "; ") == "CSS; JavaScript"
  {
    var es := Seed();
    assert Join(es[1].skills[1..], "; ") == "Python; SQL";
  }
}

/** The text part of `cargar_datos` (cervezas.py lines 16-40): a pipe-delimited table whose first
    line is the header and second line a separator, read into a frame whose columns are all
    integers when every cell of the column is a run of decimal digits, and text otherwise. */
module TableLoader {
  import opened Results
  import opened Seqs
  import opened Frames

  /** A table cell once the column types are settled: `astype(int)` or the original text. */
  datatype Cell = IntCell(n: nat) | StrCell(s: string)

  // ---------------------------------------------------------------------------------------
  // `str.strip()`

  /** The characters Python's `str.isspace` accepts, which are those `str.strip()` removes. */
  predicate IsSpace(c: char) {
    || c == ' '
    || '\t' <= c <= '\r'
    || '\U{1C}' <= c <= '\U{1F}'
    || c == '\U{85}' || c == '\U{A0}' || c == '\U{1680}'
    || '\U{2000}' <= c <= '\U{200A}'
    || c == '\U{2028}' || c == '\U{2029}' || c == '\U{202F}' || c == '\U{205F}' || c == '\U{3000}'
  }

  /** `s.lstrip()`: the suffix left after dropping leading whitespace. */
  function StripLeft(s: string): (r: string)
    ensures |r| <= |s| && r == s[|s| - |r|..]
    ensures forall i :: 0 <= i < |s| - |r| ==> IsSpace(s[i])
    ensures r == [] || !IsSpace(r[0])
  {
    if s != [] && IsSpace(s[0]) then StripLeft(s[1..]) else s
  }

  /** `s.rstrip()`: the prefix left after dropping trailing whitespace. */
  function StripRight(s: string): (r: string)
    ensures |r| <= |s| && r == s[..|r|]
    ensures forall i :: |r| <= i < |s| ==> IsSpace(s[i])
    ensures r == [] || !IsSpace(r[|r| - 1])
  {
    if s != [] && IsSpace(s[|s| - 1]) then StripRight(s[..|s| - 1]) else s
  }

  /** `s.strip()`: empty exactly when `s` is all whitespace; otherwise it starts and ends with
      a non-whitespace character of `s`. */
  function Strip(s: string): (r: string)
    ensures r == [] <==> forall i :: 0 <= i < |s| ==> IsSpace(s[i])
    ensures r != [] ==> !IsSpace(r[0]) && !IsSpace(r[|r| - 1])
  {
    var l := StripLeft(s);
    assert l == [] <==> forall i :: 0 <= i < |s| ==> IsSpace(s[i]) by {
      assert forall i :: 0 <= i < |l| ==> l[i] == s[|s| - |l| + i];
    }
    StripRight(l)
  }

  /** Stripping removes exactly the surrounding whitespace: a trimmed text between two runs of
      whitespace comes back unchanged. */
  lemma StripSurrounded(p: string, c: string, q: string)
    requires forall i :: 0 <= i < |p| ==> IsSpace(p[i])
    requires forall i :: 0 <= i < |q| ==> IsSpace(q[i])
    requires Trimmed(c)
    ensures Strip(p + c + q) == c
  {
    assert p + c + q == p + (c + q);
    StripLeftSpaces(p, c + q);
    StripRightSpaces(c, q);
    assert StripLeft(p + c + q) == c + q;
    assert StripRight(c + q) == c;
  }

  /** Leading whitespace in front of a text that starts otherwise is what `lstrip` drops. */
  lemma {:induction false} StripLeftSpaces(p: string, t: string)
    requires forall i :: 0 <= i < |p| ==> IsSpace(p[i])
    requires t != [] && !IsSpace(t[0])
    ensures StripLeft(p + t) == t
  {
    if p != [] {
      assert (p + t)[1..] == p[1..] + t;
      StripLeftSpaces(p[1..], t);
    }
  }

  /** Trailing whitespace after a text that ends otherwise is what `rstrip` drops. */
  lemma {:induction false} StripRightSpaces(t: string, q: string)
    requires forall i :: 0 <= i < |q| ==> IsSpace(q[i])
    requires t != [] && !IsSpace(t[|t| - 1])
    ensures StripRight(t + q) == t
  {
    if q != [] {
      assert (t + q)[..|t + q| - 1] == t + q[..|q| - 1];
      StripRightSpaces(t, q[..|q| - 1]);
    }
  }

  // ---------------------------------------------------------------------------------------
  // `str.split(sep)` with a one-character separator, and its inverse `sep.join`

  /** `sep.join(parts)`. */
  function Join(parts: seq<string>, sep: char): string
    decreases |parts|
  {
    if |parts| == 0 then []
    else if |parts| == 1 then parts[0]
    else parts[0] + [sep] + Join(parts[1..], sep)
  }

  /** `s.split(sep)`: the pieces between separators, at least one, none containing `sep`,
      which joined with `sep` give back `s`. */
  function Split(s: string, sep: char): (parts: seq<string>)
    ensures |parts| >= 1
    ensures forall i :: 0 <= i < |parts| ==> sep !in parts[i]
    ensures Join(parts, sep) == s
  {
    if s == [] then [[]]
    else
      var rest := Split(s[1..], sep);
      if s[0] == sep then
        assert ([[]] + rest)[1..] == rest;
        [[]] + rest
      else
        JoinFront(s[0], rest, sep);
        [[s[0]] + rest[0]] + rest[1..]
  }

  /** Joining after extending the first piece extends the joined text the same way. */
  lemma JoinFront(c: char, rest: seq<string>, sep: char)
    requires |rest| >= 1
    ensures Join([[c] + rest[0]] + rest[1..], sep) == [c] + Join(rest, sep)
  {
    var parts := [[c] + rest[0]] + rest[1..];
    if |rest| > 1 {
      assert parts[1..] == rest[1..];
    }
  }

  /** A character other than the separator in front of a text extends its first piece. */
  lemma SplitCons(c: char, r: string, sep: char)
    requires c != sep
    ensures Split([c] + r, sep) == [[c] + Split(r, sep)[0]] + Split(r, sep)[1..]
  {
    assert ([c] + r)[0] == c && ([c] + r)[1..] == r;
  }

  /** A separator-free prefix joins onto the first piece of what follows it. */
  lemma {:induction false} SplitFront(p: string, t: string, sep: char)
    requires sep !in p
    ensures Split(p + t, sep) == [p + Split(t, sep)[0]] + Split(t, sep)[1..]
  {
    if p != [] {
      var st := Split(t, sep);
      assert p + t == [p[0]] + (p[1..] + t);
      SplitFront(p[1..], t, sep);
      SplitCons(p[0], p[1..] + t, sep);
      assert [p[0]] + (p[1..] + st[0]) == p + st[0];
    } else {
      var st := Split(t, sep);
      assert p + t == t;
      assert p + st[0] == st[0];
      assert [st[0]] + st[1..] == st;
    }
  }

  /** `split` undoes `join` on separator-free pieces: `Split` and `Join` are inverse. */
  lemma {:induction false} SplitJoin(parts: seq<string>, sep: char)
    requires |parts| >= 1 && forall i :: 0 <= i < |parts| ==> sep !in parts[i]
    ensures Split(Join(parts, sep), sep) == parts
    decreases |parts|
  {
    if |parts| == 1 {
      SplitFront(parts[0], [], sep);
      assert parts[0] + [] == parts[0];
    } else {
      var j := Join(parts[1..], sep);
      SplitJoin(parts[1..], sep);
      assert ([sep] + j)[1..] == j;
      assert Split([sep] + j, sep) == [[]] + parts[1..];
      assert parts[0] + [sep] + j == parts[0] + ([sep] + j);
      SplitFront(parts[0], [sep] + j, sep);
      assert parts[0] + [] == parts[0];
    }
  }

  // ---------------------------------------------------------------------------------------
  // Lines and cells (lines 17-29)

  /** `[v.strip() for v in pieces if v.strip()]`: the trimmed pieces that are not empty. */
  function Filled(pieces: seq<string>): (cs: seq<string>)
    ensures |cs| <= |pieces|
    ensures forall i :: 0 <= i < |cs| ==> cs[i] != [] && !IsSpace(cs[i][0]) && !IsSpace(cs[i][|cs[i]| - 1])
  {
    if pieces == [] then []
    else
      var init := pieces[..|pieces| - 1];
      assert forall i :: 0 <= i < |init| ==> init[i] == pieces[i];
      var c := Strip(pieces[|pieces| - 1]);
      Filled(init) + (if c == [] then [] else [c])
  }

  /** No cell is left exactly when every piece is blank. */
  lemma {:induction false} FilledNone(pieces: seq<string>)
    ensures Filled(pieces) == [] <==> forall i :: 0 <= i < |pieces| ==> Strip(pieces[i]) == []
  {
    if pieces != [] {
      var init := pieces[..|pieces| - 1];
      assert forall i :: 0 <= i < |init| ==> init[i] == pieces[i];
      FilledNone(init);
    }
  }

  /** Lines 19 and 27: the cells of one line of the table. */
  function Cells(line: string): (cs: seq<string>)
    ensures forall i :: 0 <= i < |cs| ==> Trimmed(cs[i])
  {
    Filled(Split(line, '|'))
  }

  /** Line 17: the lines of the stripped content. */
  function Lines(contenido: string): (ls: seq<string>)
    ensures |ls| >= 1
    ensures forall i :: 0 <= i < |ls| ==> '\n' !in ls[i]
  {
    Split(Strip(contenido), '\n')
  }

  /** Line 19: the column names are the cells of the first line. */
  function Header(contenido: string): (names: seq<string>)
    ensures forall k :: 0 <= k < |names| ==> Trimmed(names[k])
  {
    Cells(Lines(contenido)[0])
  }

  /** Line 21: `lineas[2:]`; the second line is dropped whatever it holds. */
  function DataLines(contenido: string): (dl: seq<string>)
    ensures |dl| == if |Lines(contenido)| > 2 then |Lines(contenido)| - 2 else 0
    ensures forall i :: 0 <= i < |dl| ==> dl[i] == Lines(contenido)[i + 2]
  {
    var ls := Lines(contenido);
    if |ls| > 2 then ls[2..] else []
  }

  /** The cells of every line, in line order. */
  function LineCells(lines: seq<string>): seq<seq<string>> {
    seq(|lines|, i requires 0 <= i < |lines| => Cells(lines[i]))
  }

  /** Line 28: the rows that have a cell, in order; the others are skipped. */
  function NonEmptyRows(rs: seq<seq<string>>): (rows: seq<seq<string>>)
    ensures |rows| <= |rs|
    ensures forall i :: 0 <= i < |rows| ==> rows[i] != []
    ensures (forall i :: 0 <= i < |rs| ==> rs[i] != []) ==> rows == rs
  {
    if rs == [] then []
    else
      var init := rs[..|rs| - 1];
      assert forall i :: 0 <= i < |init| ==> init[i] == rs[i];
      assert rs == init + [rs[|rs| - 1]];
      NonEmptyRows(init) + (if rs[|rs| - 1] != [] then [rs[|rs| - 1]] else [])
  }

  /** Skipping blank rows works piece by piece: the kept rows of `a + b` are those of `a`
      followed by those of `b`, each in its own order. */
  lemma {:induction false} NonEmptyRowsAppend(a: seq<seq<string>>, b: seq<seq<string>>)
    ensures NonEmptyRows(a + b) == NonEmptyRows(a) + NonEmptyRows(b)
    decreases |b|
  {
    if b != [] {
      var b' := b[..|b| - 1];
      assert (a + b)[..|a + b| - 1] == a + b';
      assert (a + b)[|a + b| - 1] == b[|b| - 1];
      NonEmptyRowsAppend(a, b');
    } else {
      assert a + b == a;
    }
  }

  /** One row is kept exactly when it has a cell. */
  lemma NonEmptyRowsOne(r: seq<string>)
    ensures NonEmptyRows([r]) == if r != [] then [r] else []
  {
    assert [r][..0] == [];
  }

  /** Lines 24-29: the cells of each line that has any, in line order. */
  function DataRows(lines: seq<string>): (rows: seq<seq<string>>)
    ensures |rows| <= |lines|
    ensures forall i :: 0 <= i < |rows| ==> rows[i] != []
  {
    NonEmptyRows(LineCells(lines))
  }

  /** The data rows of the table. */
  function Rows(contenido: string): seq<seq<string>> {
    DataRows(DataLines(contenido))
  }

  /** A table row as the format writes it: `| a | b |`. */
  function RenderRow(cs: seq<string>): string {
    Join([[]] + Padded(cs) + [[]], '|')
  }

  function Padded(cs: seq<string>): seq<string> {
    seq(|cs|, i requires 0 <= i < |cs| => [' '] + cs[i] + [' '])
  }

  /** Not empty, and neither starting nor ending with whitespace. */
  predicate Trimmed(s: string) {
    s != [] && !IsSpace(s[0]) && !IsSpace(s[|s| - 1])
  }

  /** A cell the format can hold: trimmed, on one line, without a pipe. */
  predicate Writable(c: string) {
    Trimmed(c) && '|' !in c && '\n' !in c
  }

  /** Filtering a concatenation filters each part. */
  lemma {:induction false} FilledAppend(a: seq<string>, b: seq<string>)
    ensures Filled(a + b) == Filled(a) + Filled(b)
    decreases |b|
  {
    if b != [] {
      var b' := b[..|b| - 1];
      assert (a + b)[..|a + b| - 1] == a + b';
      assert (a + b)[|a + b| - 1] == b[|b| - 1];
      FilledAppend(a, b');
    } else {
      assert a + b == a;
    }
  }

  /** Filtering one more piece filters the pieces before it, then adds that piece stripped
      unless nothing is left of it. */
  lemma FilledSnoc(init: seq<string>, last: string)
    ensures var c := Strip(last);
      Filled(init + [last]) == Filled(init) + (if c == [] then [] else [c])
  {
    assert (init + [last])[..|init|] == init;
  }

  /** Padding one more cell pads the cells before it and then that cell. */
  lemma PaddedSnoc(cs: seq<string>)
    requires cs != []
    ensures Padded(cs) == Padded(cs[..|cs| - 1]) + [[' '] + cs[|cs| - 1] + [' ']]
  {
  }

  /** Padded writable cells are trimmed back to themselves. */
  lemma {:induction false} FilledPadded(cs: seq<string>)
    requires forall i :: 0 <= i < |cs| ==> Writable(cs[i])
    ensures Filled(Padded(cs)) == cs
  {
    if cs != [] {
      var cs' := cs[..|cs| - 1];
      var c := cs[|cs| - 1];
      assert cs == cs' + [c];
      var piece := [' '] + c + [' '];
      PaddedSnoc(cs);
      FilledPadded(cs');
      StripSurrounded([' '], c, [' ']);
      FilledSnoc(Padded(cs'), piece);
    }
  }

  /** Reading back a written row gives its cells: the cell reader is the inverse of the row
      writer on writable cells. */
  lemma CellsOfRendered(cs: seq<string>)
    requires forall i :: 0 <= i < |cs| ==> Writable(cs[i])
    ensures Cells(RenderRow(cs)) == cs
  {
    var pieces := [[]] + Padded(cs) + [[]];
    PiecesPipeFree(cs);
    SplitJoin(pieces, '|');
    assert Cells(RenderRow(cs)) == Filled(pieces);
    FilledAppend([[]] + Padded(cs), [[]]);
    FilledAppend([[]], Padded(cs));
    FilledPadded(cs);
    assert Filled([[]]) == [];
  }

  /** The pieces of a written row of writable cells hold no pipe. */
  lemma PiecesPipeFree(cs: seq<string>)
    requires forall i :: 0 <= i < |cs| ==> Writable(cs[i])
    ensures var pieces := [[]] + Padded(cs) + [[]];
      forall i :: 0 <= i < |pieces| ==> '|' !in pieces[i]
  {
    var pieces := [[]] + Padded(cs) + [[]];
    forall i | 0 <= i < |pieces| ensures '|' !in pieces[i] {
      if 0 < i < |pieces| - 1 {
        assert pieces[i] == [' '] + cs[i - 1] + [' '];
        assert '|' !in cs[i - 1];
      }
    }
  }

  /** Joining two non-empty runs of pieces puts one separator between their joins. */
  lemma {:induction false} JoinAppend(a: seq<string>, b: seq<string>, sep: char)
    requires |a| >= 1 && |b| >= 1
    ensures Join(a + b, sep) == Join(a, sep) + [sep] + Join(b, sep)
    decreases |a|
  {
    if |a| > 1 {
      assert (a + b)[1..] == a[1..] + b;
      JoinAppend(a[1..], b, sep);
    } else {
      assert (a + b)[1..] == b;
    }
  }

  /** A character that is neither the separator nor in any piece is not in the join. */
  lemma {:induction false} JoinAvoids(parts: seq<string>, sep: char, x: char)
    requires x != sep && forall i :: 0 <= i < |parts| ==> x !in parts[i]
    ensures x !in Join(parts, sep)
    decreases |parts|
  {
    if |parts| > 1 {
      JoinAvoids(parts[1..], sep, x);
    }
  }

  /** A written row starts and ends with a pipe and, of writable cells, stays on one line. */
  lemma RenderedRowShape(cs: seq<string>)
    requires forall i :: 0 <= i < |cs| ==> Writable(cs[i])
    ensures Trimmed(RenderRow(cs)) && RenderRow(cs)[0] == '|'
    ensures '\n' !in RenderRow(cs)
  {
    var ps := Padded(cs);
    JoinAppend([[]] + ps, [[]], '|');
    if ps != [] {
      JoinAppend([[]], ps, '|');
    }
    forall i | 0 <= i < |[[]] + ps + [[]]| ensures '\n' !in ([[]] + ps + [[]])[i] {
      if 0 < i <= |ps| {
        assert ([[]] + ps + [[]])[i] == [' '] + cs[i - 1] + [' '];
      }
    }
    JoinAvoids([[]] + ps + [[]], '|', '\n');
  }

  /** The text of a table: the header row, a separator line, then one row per data row. */
  function RenderTable(names: seq<string>, separador: string, rows: seq<seq<string>>): string {
    Join([RenderRow(names), separador] + RenderedRows(rows), '\n')
  }

  function RenderedRows(rows: seq<seq<string>>): seq<string> {
    seq(|rows|, i requires 0 <= i < |rows| => RenderRow(rows[i]))
  }

  /** Reading back written rows that all have cells gives those rows. */
  lemma DataRowsRendered(rows: seq<seq<string>>)
    requires forall i :: 0 <= i < |rows| ==> rows[i] != [] && forall k :: 0 <= k < |rows[i]| ==> Writable(rows[i][k])
    ensures DataRows(RenderedRows(rows)) == rows
  {
    var ls := RenderedRows(rows);
    forall i | 0 <= i < |rows| ensures Cells(ls[i]) == rows[i] {
      CellsOfRendered(rows[i]);
    }
    DataRowsOfCells(ls, rows);
  }

  /** Lines whose cells are the given non-empty rows read as those rows. */
  lemma DataRowsOfCells(lines: seq<string>, rows: seq<seq<string>>)
    requires |lines| == |rows|
    requires forall i :: 0 <= i < |rows| ==> Cells(lines[i]) == rows[i] && rows[i] != []
    ensures DataRows(lines) == rows
  {
    assert LineCells(lines) == rows;
  }

  /** Loading the text of a table written in the format gives back the frame of its header
      and rows, for any trimmed one-line separator line: the parser inverts the writer. */
  lemma LoadRendered(names: seq<string>, separador: string, rows: seq<seq<string>>)
    requires |names| > 0 && forall k :: 0 <= k < |names| ==> Writable(names[k])
    requires Trimmed(separador) && '\n' !in separador
    requires Rectangular(rows, |names|)
    requires forall i, k :: 0 <= i < |rows| && 0 <= k < |rows[i]| ==> Writable(rows[i][k])
    ensures Header(RenderTable(names, separador, rows)) == names
    ensures Rows(RenderTable(names, separador, rows)) == rows
    ensures Table(RenderTable(names, separador, rows)) == TableOf(names, rows)
    ensures Table(RenderTable(names, separador, rows)).Ok?
  {
    var text := RenderTable(names, separador, rows);
    RenderedLines(names, separador, rows);
    CellsOfRendered(names);
    assert DataLines(text) == RenderedRows(rows);
    forall i | 0 <= i < |rows| ensures rows[i] != [] {
      assert |rows[i]| == |names|;
    }
    DataRowsRendered(rows);
  }

  /** The lines of a written table are its header row, its separator line and its rows. */
  lemma RenderedLines(names: seq<string>, separador: string, rows: seq<seq<string>>)
    requires forall k :: 0 <= k < |names| ==> Writable(names[k])
    requires Trimmed(separador) && '\n' !in separador
    requires forall i, k :: 0 <= i < |rows| && 0 <= k < |rows[i]| ==> Writable(rows[i][k])
    ensures Lines(RenderTable(names, separador, rows)) == [RenderRow(names), separador] + RenderedRows(rows)
  {
    var ls := [RenderRow(names), separador] + RenderedRows(rows);
    var text := Join(ls, '\n');
    RenderedRowShape(names);
    forall i | 0 <= i < |rows| ensures Trimmed(RenderRow(rows[i])) && '\n' !in RenderRow(rows[i]) {
      RenderedRowShape(rows[i]);
    }
    forall i | 0 <= i < |ls| ensures Trimmed(ls[i]) && '\n' !in ls[i] {
      if i >= 2 {
        assert ls[i] == RenderRow(rows[i - 2]);
      }
    }
    TextTrimmed(ls);
    StripSurrounded([], text, []);
    assert [] + text + [] == text;
    SplitJoin(ls, '\n');
  }

  /** Lines that are all trimmed join to a trimmed text. */
  lemma TextTrimmed(ls: seq<string>)
    requires |ls| >= 1 && Trimmed(ls[0]) && Trimmed(ls[|ls| - 1])
    ensures Trimmed(Join(ls, '\n'))
  {
    JoinFirst(ls, '\n');
    JoinLast(ls, '\n');
  }

  /** A join starts as its first piece does ... */
  lemma JoinFirst(ls: seq<string>, sep: char)
    requires |ls| >= 1 && ls[0] != []
    ensures Join(ls, sep) != [] && Join(ls, sep)[0] == ls[0][0]
  {
    if |ls| > 1 {
      JoinAppend([ls[0]], ls[1..], sep);
      assert [ls[0]] + ls[1..] == ls;
    }
  }

  /** ... and ends as its last piece does. */
  lemma JoinLast(ls: seq<string>, sep: char)
    requires |ls| >= 1 && ls[|ls| - 1] != []
    ensures var j := Join(ls, sep); var l := ls[|ls| - 1]; j != [] && j[|j| - 1] == l[|l| - 1]
  {
    if |ls| > 1 {
      JoinAppend(ls[..|ls| - 1], [ls[|ls| - 1]], sep);
      assert ls[..|ls| - 1] + [ls[|ls| - 1]] == ls;
    }
  }

  // ---------------------------------------------------------------------------------------
  // Integer columns (lines 35-38)

  /** `re.match(r'^\d+$', s)`, with ASCII digits: one or more of `0`-`9`. */
  predicate AllDigits(s: string) {
    |s| > 0 && forall i :: 0 <= i < |s| ==> '0' <= s[i] <= '9'
  }

  /** `int(s)` on a run of decimal digits. */
  function ParseNat(s: string): nat
    requires forall i :: 0 <= i < |s| ==> '0' <= s[i] <= '9'
  {
    if s == [] then 0
    else ParseNat(s[..|s| - 1]) * 10 + (s[|s| - 1] as int - '0' as int)
  }

  /** `str(n)`: the decimal digits of `n`, most significant first. */
  function Digits(n: nat): string
    decreases n
  {
    var d := [('0' as int + n % 10) as char];
    if n < 10 then d else Digits(n / 10) + d
  }

  /** `int(str(n)) == n`: decimal digits are read back to the number they write. */
  lemma {:induction false} ParseDigits(n: nat)
    ensures AllDigits(Digits(n))
    ensures ParseNat(Digits(n)) == n
    decreases n
  {
    if n >= 10 {
      ParseDigits(n / 10);
      var s := Digits(n);
      assert s[..|s| - 1] == Digits(n / 10);
    }
  }

  /** A column left as text. */
  function TextColumn(col: seq<string>): seq<Cell> {
    seq(|col|, i requires 0 <= i < |col| => StrCell(col[i]))
  }

  /** `astype(int)` of a column of digit runs. */
  function IntColumn(col: seq<string>): seq<Cell>
    requires forall i :: 0 <= i < |col| ==> AllDigits(col[i])
  {
    seq(|col|, i requires 0 <= i < |col| && AllDigits(col[i]) => IntCell(ParseNat(col[i])))
  }

  /** Lines 37-38: a column becomes integer only if every one of its cells is a digit run. */
  function ConvertColumn(col: seq<string>): seq<Cell> {
    if forall i :: 0 <= i < |col| ==> AllDigits(col[i]) then IntColumn(col) else TextColumn(col)
  }

  /** The conversion is all or nothing, keeps every cell's place, and keeps its content: an
      integer cell reads its text as a number and a text cell is its text. */
  lemma ConvertAllOrNothing(col: seq<string>)
    ensures |ConvertColumn(col)| == |col|
    ensures (forall i :: 0 <= i < |col| ==> ConvertColumn(col)[i].IntCell?) ||
            (forall i :: 0 <= i < |col| ==> ConvertColumn(col)[i].StrCell?)
    ensures forall i :: 0 <= i < |col| ==>
      (ConvertColumn(col)[i].IntCell? <==> forall j :: 0 <= j < |col| ==> AllDigits(col[j]))
    ensures forall i :: 0 <= i < |col| ==>
      match ConvertColumn(col)[i]
      case IntCell(n) => AllDigits(col[i]) && n == ParseNat(col[i])
      case StrCell(s) => s == col[i]
  {
  }

  /** A column of written numbers loads as those numbers. */
  lemma ConvertNumbers(ns: seq<nat>)
    ensures ConvertColumn(seq(|ns|, i requires 0 <= i < |ns| => Digits(ns[i]))) ==
            seq(|ns|, i requires 0 <= i < |ns| => IntCell(ns[i]))
  {
    var col := seq(|ns|, i requires 0 <= i < |ns| => Digits(ns[i]));
    forall i | 0 <= i < |ns| ensures AllDigits(col[i]) && ParseNat(col[i]) == ns[i] {
      ParseDigits(ns[i]);
    }
  }

  /** One cell that is not a digit run keeps its whole column as text. */
  lemma ConvertOneText(col: seq<string>, k: nat)
    requires k < |col| && !AllDigits(col[k])
    ensures ConvertColumn(col) == TextColumn(col)
  {
  }

  // ---------------------------------------------------------------------------------------
  // The frame (lines 31-40)

  /** Column `j` of rows that all have more than `j` cells. */
  function ColumnOf(rows: seq<seq<string>>, j: nat): (col: seq<string>)
    requires forall i :: 0 <= i < |rows| ==> j < |rows[i]|
    ensures |col| == |rows|
  {
    seq(|rows|, i requires 0 <= i < |rows| => rows[i][j])
  }

  predicate Rectangular(rows: seq<seq<string>>, width: nat) {
    forall i :: 0 <= i < |rows| ==> |rows[i]| == width
  }

  /** `pd.DataFrame(datos, columns=cabeceras)` followed by the conversion loop: an error when a
      data row does not have one cell per column name (line 32), otherwise the frame of
      converted columns with the names of the header and one row per data row. */
  function TableOf(cabeceras: seq<string>, datos: seq<seq<string>>): (r: Result<Frame<Cell>>)
    ensures r.Err? <==> !Rectangular(datos, |cabeceras|)
    ensures r.Err? ==> r.fault == ShapeMismatch
    ensures r.Ok? ==> WellFormed(r.value) && r.value.names == cabeceras && r.value.height == |datos|
  {
    if !Rectangular(datos, |cabeceras|) then Err(ShapeMismatch)
    else
      var columnas := seq(|cabeceras|, j requires 0 <= j < |cabeceras| => ConvertColumn(ColumnOf(datos, j)));
      assert forall j :: 0 <= j < |columnas| ==> |columnas[j]| == |datos|;
      Ok(Frame(cabeceras, columnas, |datos|))
  }

  /** What `cargar_datos` returns for the text `contenido`. */
  function Table(contenido: string): (r: Result<Frame<Cell>>)
    ensures r.Ok? ==> r.value.names == Header(contenido) && r.value.height == |Rows(contenido)|
    ensures r.Err? ==> r.fault == ShapeMismatch
  {
    TableOf(Header(contenido), Rows(contenido))
  }

  /** Every cell of a loaded frame is its data row's cell at that column, converted as its
      column is: all columns of digit runs are integers, all others keep their text. */
  lemma TableCells(cabeceras: seq<string>, datos: seq<seq<string>>, j: nat, i: nat)
    requires TableOf(cabeceras, datos).Ok?
    requires j < |cabeceras| && i < |datos|
    ensures var cell := TableOf(cabeceras, datos).value.columns[j][i];
      (cell.IntCell? <==> forall k :: 0 <= k < |datos| ==> AllDigits(datos[k][j])) &&
      match cell
      case IntCell(n) => n == ParseNat(datos[i][j])
      case StrCell(s) => s == datos[i][j]
  {
    var col := ColumnOf(datos, j);
    ConvertAllOrNothing(col);
    assert forall k :: 0 <= k < |datos| ==> col[k] == datos[k][j];
  }

  /** `cargar_datos(ruta_archivo)` once the file has been read into `contenido`. */
  method LoadTable(contenido: string) returns (r: Result<Frame<Cell>>)
    ensures r == Table(contenido)
  {
    var lineas := Split(Strip(contenido), '\n');
    assert lineas == Lines(contenido);
    var cabeceras := Cells(lineas[0]);
    var lineasDatos := if |lineas| > 2 then lineas[2..] else [];
    var datos := ReadRows(lineasDatos);
    r := BuildFrame(cabeceras, datos);
  }

  /** The rows of one more line are those before it, then its cells if it has any. */
  lemma ReadStep(lines: seq<string>, k: nat)
    requires k < |lines|
    ensures var valores := Cells(lines[k]);
      DataRows(lines[..k + 1]) == DataRows(lines[..k]) + (if valores != [] then [valores] else [])
  {
    var rs := LineCells(lines[..k + 1]);
    assert rs[..k] == LineCells(lines[..k]);
  }

  /** Lines 24-29: the loop that appends the cells of every line that has any. */
  method ReadRows(lineasDatos: seq<string>) returns (datos: seq<seq<string>>)
    ensures datos == DataRows(lineasDatos)
  {
    datos := [];
    for k := 0 to |lineasDatos|
      invariant datos == DataRows(lineasDatos[..k])
    {
      var valores := Cells(lineasDatos[k]);
      if valores != [] {
        datos := datos + [valores];
      }
      ReadStep(lineasDatos, k);
    }
    assert lineasDatos[..|lineasDatos|] == lineasDatos;
  }

  /** Lines 32-38: the frame of the rows under the header, then the loop that turns every
      column of digit runs into integers in place. */
  method BuildFrame(cabeceras: seq<string>, datos: seq<seq<string>>) returns (r: Result<Frame<Cell>>)
    ensures r == TableOf(cabeceras, datos)
  {
    if !Rectangular(datos, |cabeceras|) {
      return Err(ShapeMismatch);
    }
    var columnas := seq(|cabeceras|, j requires 0 <= j < |cabeceras| => TextColumn(ColumnOf(datos, j)));
    for j := 0 to |cabeceras|
      invariant |columnas| == |cabeceras|
      invariant forall c :: 0 <= c < j ==> columnas[c] == ConvertColumn(ColumnOf(datos, c))
      invariant forall c :: j <= c < |cabeceras| ==> columnas[c] == TextColumn(ColumnOf(datos, c))
    {
      var texto := ColumnOf(datos, j);
      if forall i :: 0 <= i < |texto| ==> AllDigits(texto[i]) {
        columnas := columnas[j := IntColumn(texto)];
      }
      assert columnas[j] == ConvertColumn(texto);
    }
    ghost var convertidas := seq(|cabeceras|, j requires 0 <= j < |cabeceras| => ConvertColumn(ColumnOf(datos, j)));
    assert forall c :: 0 <= c < |cabeceras| ==> columnas[c] == convertidas[c];
    assert columnas == convertidas;
    return Ok(Frame(cabeceras, columnas, |datos|));
  }
}

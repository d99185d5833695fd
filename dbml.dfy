/**
 Rendering catalog rows as DBML: the Postgres-to-DBML type map and the loop
 that writes one `Table` block per run of rows of the same table.
 */
module Dbml {
  import opened Wrappers
  import opened PyStr

  /** One row of `information_schema.columns`, as the catalog query selects it. */
  datatype CatalogRow = CatalogRow(table: string, column: string, dataType: string)

  // ---------------------------------------------------------------------------
  // The type map
  // ---------------------------------------------------------------------------

  /** The Postgres type names (lower-case) that get a shorter DBML name. */
  const TypeTable: map<string, string> := map[
    "double precision" := "double",
    "integer" := "int",
    "character varying" := "varchar",
    "timestamp without time zone" := "timestamp",
    "timestamp with time zone" := "timestamptz",
    "boolean" := "bool",
    "bigint" := "bigint",
    "smallint" := "smallint",
    "numeric" := "decimal",
    "decimal" := "decimal"
  ]

  /**
   `map_type`: the type name is lower-cased first and then looked up; a name
   that is not in the table comes back lower-cased.
   */
  function MapType(pgType: string): (r: string)
    ensures var t := LowerStr(pgType); r == if t in TypeTable then TypeTable[t] else t
  {
    var t := LowerStr(pgType);
    if t == "double precision" then "double"
    else if t == "integer" then "int"
    else if t == "character varying" then "varchar"
    else if t == "timestamp without time zone" then "timestamp"
    else if t == "timestamp with time zone" then "timestamptz"
    else if t == "boolean" then "bool"
    else if t == "bigint" then "bigint"
    else if t == "smallint" then "smallint"
    else if t == "numeric" || t == "decimal" then "decimal"
    else t
  }

  /** Every mapped name is already lower-case and maps to itself. */
  lemma TypeTableTargets(t: string)
    requires t in TypeTable
    ensures IsLowerStr(TypeTable[t])
    ensures TypeTable[t] !in TypeTable || TypeTable[TypeTable[t]] == TypeTable[t]
  {
  }

  /** The type map yields lower-case names. */
  lemma MapTypeLower(pgType: string)
    ensures IsLowerStr(MapType(pgType))
  {
    LowerStrFacts(pgType);
    var t := LowerStr(pgType);
    if t in TypeTable { TypeTableTargets(t); }
  }

  /** Mapping twice is mapping once. */
  lemma MapTypeIdempotent(pgType: string)
    ensures MapType(MapType(pgType)) == MapType(pgType)
  {
    var r := MapType(pgType);
    MapTypeLower(pgType);
    LowerStrFacts(r);
    LowerStrFacts(pgType);
    var t := LowerStr(pgType);
    if t in TypeTable { TypeTableTargets(t); }
  }

  /** The letter case of a type name does not matter. */
  lemma MapTypeIgnoresCase(pgType: string)
    ensures MapType(LowerStr(pgType)) == MapType(pgType)
  {
    LowerStrFacts(pgType);
    LowerStrFacts(LowerStr(pgType));
  }

  // ---------------------------------------------------------------------------
  // Blocks: the runs of rows of one table
  // ---------------------------------------------------------------------------

  /** One `Table` block: a table name and the rows listed under it, in order. */
  datatype Block = Block(table: string, rows: seq<CatalogRow>)

  /** The rows cut into maximal runs of the same table, built row by row as the renderer reads them. */
  function Blocks(rows: seq<CatalogRow>): (bs: seq<Block>)
    ensures rows == [] <==> bs == []
    ensures bs != [] ==> bs[|bs| - 1].table == rows[|rows| - 1].table
    decreases |rows|
  {
    if rows == [] then []
    else
      var prev := Blocks(rows[..|rows| - 1]);
      var row := rows[|rows| - 1];
      if prev != [] && prev[|prev| - 1].table == row.table then
        prev[..|prev| - 1] + [Block(row.table, prev[|prev| - 1].rows + [row])]
      else
        prev + [Block(row.table, [row])]
  }

  /** The rows of the blocks, one block after the other. */
  function Flatten(bs: seq<Block>): seq<CatalogRow>
    decreases |bs|
  {
    if bs == [] then [] else Flatten(bs[..|bs| - 1]) + bs[|bs| - 1].rows
  }

  /** Each block is a non-empty run of rows of its own table, and neighbouring blocks name different tables. */
  predicate MaximalRuns(bs: seq<Block>) {
    && (forall k :: 0 <= k < |bs| ==> bs[k].rows != [])
    && (forall k, m :: 0 <= k < |bs| && 0 <= m < |bs[k].rows| ==> bs[k].rows[m].table == bs[k].table)
    && (forall k :: 0 < k < |bs| ==> bs[k - 1].table != bs[k].table)
  }

  /** The number of rows that start a new run: the first row, and every row whose table differs from the row before. */
  function TableChanges(rows: seq<CatalogRow>): nat
    decreases |rows|
  {
    if rows == [] then 0
    else
      var n := |rows|;
      TableChanges(rows[..n - 1]) + (if n == 1 || rows[n - 1].table != rows[n - 2].table then 1 else 0)
  }

  /** A row of the last block's table joins that block. */
  lemma BlocksSnocJoin(rows: seq<CatalogRow>, row: CatalogRow)
    requires rows != [] && rows[|rows| - 1].table == row.table
    ensures var prev := Blocks(rows);
      Blocks(rows + [row]) == prev[..|prev| - 1] + [Block(row.table, prev[|prev| - 1].rows + [row])]
  {
    var all := rows + [row];
    assert all[..|all| - 1] == rows;
  }

  /** Appending a row either grows the last block or opens a new one. */
  lemma BlocksSnoc(rows: seq<CatalogRow>, row: CatalogRow)
    ensures var prev := Blocks(rows);
      Blocks(rows + [row]) ==
        if prev != [] && prev[|prev| - 1].table == row.table then
          prev[..|prev| - 1] + [Block(row.table, prev[|prev| - 1].rows + [row])]
        else
          prev + [Block(row.table, [row])]
  {
    var all := rows + [row];
    assert all[..|all| - 1] == rows;
  }

  /** A row of another table (or the first row) opens a new block. */
  lemma BlocksSnocOpen(rows: seq<CatalogRow>, row: CatalogRow)
    requires rows == [] || rows[|rows| - 1].table != row.table
    ensures Blocks(rows + [row]) == Blocks(rows) + [Block(row.table, [row])]
  {
    BlocksSnoc(rows, row);
  }

  lemma FlattenSnoc(bs: seq<Block>, b: Block)
    ensures Flatten(bs + [b]) == Flatten(bs) + b.rows
  {
    assert (bs + [b])[..|bs|] == bs;
  }

  /** Growing the last block by a row adds that row at the end of the flattened rows. */
  lemma FlattenGrow(front: seq<Block>, last: Block, row: CatalogRow)
    ensures Flatten(front + [Block(row.table, last.rows + [row])]) == Flatten(front + [last]) + [row]
  {
    FlattenSnoc(front, last);
    FlattenSnoc(front, Block(row.table, last.rows + [row]));
  }

  /** The blocks hold the rows in order, without loss. */
  lemma {:induction false} BlocksFlatten(rows: seq<CatalogRow>)
    ensures Flatten(Blocks(rows)) == rows
    decreases |rows|
  {
    if rows != [] {
      var init, row := rows[..|rows| - 1], rows[|rows| - 1];
      assert rows == init + [row];
      BlocksFlatten(init);
      var prev := Blocks(init);
      if init != [] && init[|init| - 1].table == row.table {
        BlocksSnocJoin(init, row);
        var front, last := prev[..|prev| - 1], prev[|prev| - 1];
        FlattenSnoc(front, last);
        assert Flatten(prev) == Flatten(front) + last.rows;
        FlattenGrow(front, last, row);
      } else {
        BlocksSnocOpen(init, row);
        FlattenSnoc(prev, Block(row.table, [row]));
      }
    }
  }

  lemma MaximalRunsJoin(prev: seq<Block>, row: CatalogRow)
    requires MaximalRuns(prev) && prev != [] && prev[|prev| - 1].table == row.table
    ensures MaximalRuns(prev[..|prev| - 1] + [Block(row.table, prev[|prev| - 1].rows + [row])])
  {
    var bs := prev[..|prev| - 1] + [Block(row.table, prev[|prev| - 1].rows + [row])];
    forall k | 0 < k < |bs| ensures bs[k - 1].table != bs[k].table {
      assert bs[k].table == prev[k].table && bs[k - 1].table == prev[k - 1].table;
    }
  }

  lemma MaximalRunsOpen(prev: seq<Block>, row: CatalogRow)
    requires MaximalRuns(prev) && (prev == [] || prev[|prev| - 1].table != row.table)
    ensures MaximalRuns(prev + [Block(row.table, [row])])
  {
  }

  /** The blocks are maximal runs: non-empty, one table each, and neighbours differ. */
  lemma {:induction false} BlocksAreMaximalRuns(rows: seq<CatalogRow>)
    ensures MaximalRuns(Blocks(rows))
    decreases |rows|
  {
    if rows != [] {
      var init, row := rows[..|rows| - 1], rows[|rows| - 1];
      assert rows == init + [row];
      BlocksAreMaximalRuns(init);
      if init != [] && init[|init| - 1].table == row.table {
        BlocksSnocJoin(init, row);
        MaximalRunsJoin(Blocks(init), row);
      } else {
        BlocksSnocOpen(init, row);
        MaximalRunsOpen(Blocks(init), row);
      }
    }
  }

  /** There is one block per table change. */
  lemma {:induction false} BlocksCount(rows: seq<CatalogRow>)
    ensures |Blocks(rows)| == TableChanges(rows)
    decreases |rows|
  {
    if rows != [] {
      var init, row := rows[..|rows| - 1], rows[|rows| - 1];
      assert rows == init + [row];
      BlocksCount(init);
      assert |rows| > 1 ==> rows[|rows| - 2] == init[|init| - 1];
      if init != [] && init[|init| - 1].table == row.table {
        BlocksSnocJoin(init, row);
      } else {
        BlocksSnocOpen(init, row);
      }
    }
  }

  // ---------------------------------------------------------------------------
  // The DBML text
  // ---------------------------------------------------------------------------

  const Closer: string := "}"

  function Header(table: string): string {
    "Table " + table + " {"
  }

  function ColumnLine(row: CatalogRow): string {
    "  " + row.column + " " + MapType(row.dataType)
  }

  function ColumnLines(rows: seq<CatalogRow>): (ls: seq<string>)
    ensures |ls| == |rows|
    decreases |rows|
  {
    if rows == [] then [] else ColumnLines(rows[..|rows| - 1]) + [ColumnLine(rows[|rows| - 1])]
  }

  /** A block renders as its header, one line per column, and a closing brace. */
  function BlockLines(b: Block): seq<string> {
    [Header(b.table)] + ColumnLines(b.rows) + [Closer]
  }

  function LinesOf(bs: seq<Block>): seq<string>
    decreases |bs|
  {
    if bs == [] then [] else LinesOf(bs[..|bs| - 1]) + BlockLines(bs[|bs| - 1])
  }

  /** The lines of the DBML text for the catalog rows. */
  function DbmlLines(rows: seq<CatalogRow>): (ls: seq<string>)
    ensures rows == [] <==> ls == []
    ensures ls != [] ==> ls[|ls| - 1] == Closer
  {
    var bs := Blocks(rows);
    LinesOfShape(bs);
    LinesOf(bs)
  }

  lemma {:induction false} LinesOfShape(bs: seq<Block>)
    ensures bs == [] <==> LinesOf(bs) == []
    ensures bs != [] ==> LinesOf(bs)[|LinesOf(bs)| - 1] == Closer
  {
  }

  lemma LinesOfSnoc(bs: seq<Block>, b: Block)
    ensures LinesOf(bs + [b]) == LinesOf(bs) + BlockLines(b)
  {
    assert (bs + [b])[..|bs|] == bs;
  }

  lemma ColumnLinesSnoc(rows: seq<CatalogRow>, row: CatalogRow)
    ensures ColumnLines(rows + [row]) == ColumnLines(rows) + [ColumnLine(row)]
  {
    assert (rows + [row])[..|rows|] == rows;
  }

  /** The lines of the rows, split at the last block. */
  lemma DbmlLinesLastBlock(rows: seq<CatalogRow>)
    requires rows != []
    ensures var bs := Blocks(rows);
      DbmlLines(rows) == LinesOf(bs[..|bs| - 1]) + BlockLines(bs[|bs| - 1])
  {
    var bs := Blocks(rows);
    assert bs == bs[..|bs| - 1] + [bs[|bs| - 1]];
    LinesOfSnoc(bs[..|bs| - 1], bs[|bs| - 1]);
  }

  lemma SnocCancel(a: seq<string>, b: seq<string>, x: string)
    requires a + [x] == b + [x]
    ensures a == b
  {
    assert a == (a + [x])[..|a|];
    assert b == (b + [x])[..|b|];
  }

  lemma Regroup(p: seq<string>, h: seq<string>, l: seq<string>, c: string, z: string)
    ensures p + h + l + [c] + [z] == p + (h + (l + [c]) + [z])
  {
  }

  /** A row of the same table as the row before goes into the open block, just before its closing brace. */
  lemma DbmlLinesSameTable(rows: seq<CatalogRow>, row: CatalogRow, open: seq<string>)
    requires rows != [] && rows[|rows| - 1].table == row.table
    requires open + [Closer] == DbmlLines(rows)
    ensures open + [ColumnLine(row)] + [Closer] == DbmlLines(rows + [row])
  {
    var prev := Blocks(rows);
    var last, front := prev[|prev| - 1], prev[..|prev| - 1];
    var p, h, l := LinesOf(front), [Header(row.table)], ColumnLines(last.rows);
    DbmlLinesLastBlock(rows);
    assert DbmlLines(rows) == (p + h + l) + [Closer];
    SnocCancel(open, p + h + l, Closer);
    BlocksSnocJoin(rows, row);
    var grown := Block(row.table, last.rows + [row]);
    LinesOfSnoc(front, grown);
    ColumnLinesSnoc(last.rows, row);
    assert DbmlLines(rows + [row]) == p + (h + (l + [ColumnLine(row)]) + [Closer]);
    Regroup(p, h, l, ColumnLine(row), Closer);
  }

  /** A row of another table than the row before (or the first row) opens a new block after the lines so far. */
  lemma DbmlLinesOpenBlock(rows: seq<CatalogRow>, row: CatalogRow)
    requires rows == [] || rows[|rows| - 1].table != row.table
    ensures DbmlLines(rows + [row]) == DbmlLines(rows) + ([Header(row.table)] + [ColumnLine(row)] + [Closer])
  {
    var bs := Blocks(rows);
    var b := Block(row.table, [row]);
    BlocksSnocOpen(rows, row);
    assert Blocks(rows + [row]) == bs + [b];
    LinesOfSnoc(bs, b);
    ColumnLinesSnoc([], row);
    assert [] + [row] == [row];
    assert BlockLines(b) == [Header(row.table)] + [ColumnLine(row)] + [Closer];
  }

  lemma AppendThree(a: seq<string>, x: string, y: string, z: string)
    ensures a + [x] + [y] + [z] == a + ([x] + [y] + [z])
  {
  }

  /** The renderer's step at row `i` when the table is unchanged, stated on prefixes of `rows`. */
  lemma RenderSameTable(rows: seq<CatalogRow>, i: nat, open: seq<string>)
    requires 0 < i < |rows| && rows[i - 1].table == rows[i].table
    requires open + [Closer] == DbmlLines(rows[..i])
    ensures open + [ColumnLine(rows[i])] + [Closer] == DbmlLines(rows[..i + 1])
  {
    assert rows[..i + 1] == rows[..i] + [rows[i]];
    DbmlLinesSameTable(rows[..i], rows[i], open);
  }

  /** The renderer's step at row `i` when the table changes (or `i` is the first row), stated on prefixes of `rows`. */
  lemma RenderNewTable(rows: seq<CatalogRow>, i: nat, open: seq<string>)
    requires i < |rows|
    requires i == 0 ==> open == []
    requires i > 0 ==> rows[i - 1].table != rows[i].table && open + [Closer] == DbmlLines(rows[..i])
    ensures (if i == 0 then open else open + [Closer]) + [Header(rows[i].table)] + [ColumnLine(rows[i])] + [Closer]
      == DbmlLines(rows[..i + 1])
  {
    var done, row := rows[..i], rows[i];
    assert rows[..i + 1] == done + [row];
    DbmlLinesOpenBlock(done, row);
    var before := if i == 0 then open else open + [Closer];
    assert DbmlLines(done) == before;
    AppendThree(before, Header(row.table), ColumnLine(row), Closer);
  }

  /**
   The renderer loop: a header whenever the table differs from the previous
   row's, a closing brace before each later header and after the last row,
   one line per column; the lines are joined with newlines.
   */
  method RenderDbml(rows: seq<CatalogRow>) returns (text: string)
    ensures text == Join(DbmlLines(rows), "\n")
  {
    var lines: seq<string> := [];
    var current: Option<string> := None;
    for i := 0 to |rows|
      invariant i == 0 ==> lines == [] && current == None
      invariant i > 0 ==> current == Some(rows[i - 1].table) && lines + [Closer] == DbmlLines(rows[..i])
    {
      var row := rows[i];
      if current != Some(row.table) {
        RenderNewTable(rows, i, lines);
        if current.Some? {
          lines := lines + [Closer];
        }
        lines := lines + [Header(row.table)];
        current := Some(row.table);
      } else {
        RenderSameTable(rows, i, lines);
      }
      lines := lines + [ColumnLine(row)];
    }
    if current.Some? {
      lines := lines + [Closer];
    }
    assert rows[..|rows|] == rows;
    text := Join(lines, "\n");
  }

  // ---------------------------------------------------------------------------
  // Counting lines
  // ---------------------------------------------------------------------------

  predicate IsHeaderLine(line: string) {
    HasPrefix(line, "Table ")
  }

  function HeaderCount(lines: seq<string>): nat
    decreases |lines|
  {
    if lines == [] then 0 else HeaderCount(lines[..|lines| - 1]) + (if IsHeaderLine(lines[|lines| - 1]) then 1 else 0)
  }

  function CloserCount(lines: seq<string>): nat
    decreases |lines|
  {
    if lines == [] then 0 else CloserCount(lines[..|lines| - 1]) + (if lines[|lines| - 1] == Closer then 1 else 0)
  }

  lemma {:induction false} CountsAppend(a: seq<string>, b: seq<string>)
    ensures HeaderCount(a + b) == HeaderCount(a) + HeaderCount(b)
    ensures CloserCount(a + b) == CloserCount(a) + CloserCount(b)
    decreases |b|
  {
    if b == [] {
      assert a + b == a;
    } else {
      var ab := a + b;
      assert ab[..|ab| - 1] == a + b[..|b| - 1];
      assert ab[|ab| - 1] == b[|b| - 1];
      CountsAppend(a, b[..|b| - 1]);
    }
  }

  /** Column lines are neither headers nor closing braces. */
  lemma {:induction false} ColumnLinesCounts(rows: seq<CatalogRow>)
    ensures HeaderCount(ColumnLines(rows)) == 0 && CloserCount(ColumnLines(rows)) == 0
    decreases |rows|
  {
    if rows != [] {
      var ls := ColumnLines(rows);
      assert ls[..|ls| - 1] == ColumnLines(rows[..|rows| - 1]);
      ColumnLinesCounts(rows[..|rows| - 1]);
      var line := ColumnLine(rows[|rows| - 1]);
      assert line[0] == ' ';
    }
  }

  lemma BlockLinesCounts(b: Block)
    ensures HeaderCount(BlockLines(b)) == 1 && CloserCount(BlockLines(b)) == 1
  {
    var h := Header(b.table);
    assert h[..6] == "Table ";
    ColumnLinesCounts(b.rows);
    CountsAppend([h], ColumnLines(b.rows));
    CountsAppend([h] + ColumnLines(b.rows), [Closer]);
    assert [h][..0] == [];
    assert [Closer][..0] == [];
  }

  lemma {:induction false} LinesOfCounts(bs: seq<Block>)
    ensures HeaderCount(LinesOf(bs)) == |bs| && CloserCount(LinesOf(bs)) == |bs|
    decreases |bs|
  {
    if bs != [] {
      LinesOfCounts(bs[..|bs| - 1]);
      BlockLinesCounts(bs[|bs| - 1]);
      CountsAppend(LinesOf(bs[..|bs| - 1]), BlockLines(bs[|bs| - 1]));
    }
  }

  /** There are as many `Table` lines as closing braces, and as many as there are table changes in the rows. */
  lemma DbmlCounts(rows: seq<CatalogRow>)
    ensures HeaderCount(DbmlLines(rows)) == TableChanges(rows)
    ensures CloserCount(DbmlLines(rows)) == TableChanges(rows)
  {
    BlocksCount(rows);
    LinesOfCounts(Blocks(rows));
  }

  /** A table whose rows are not contiguous gets a second block. */
  lemma TableReappears(a: CatalogRow, b: CatalogRow, c: CatalogRow)
    requires a.table == c.table != b.table
    ensures Blocks([a, b, c]) == [Block(a.table, [a]), Block(b.table, [b]), Block(c.table, [c])]
  {
    BlocksSnocOpen([], a);
    assert [] + [a] == [a];
    assert Blocks([a]) == [Block(a.table, [a])];
    BlocksSnocOpen([a], b);
    assert [a] + [b] == [a, b];
    assert Blocks([a, b]) == [Block(a.table, [a]), Block(b.table, [b])];
    BlocksSnocOpen([a, b], c);
    assert [a, b] + [c] == [a, b, c];
  }
}

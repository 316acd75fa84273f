/** The parsed gauge page as the scraper sees it through `querySelectorAll`: the tables in
    document order, each a sequence of `tr` rows, each row a sequence of `th`/`td` cells
    carrying their text. */
module Pages {

  datatype Cell = Th(text: string) | Td(text: string)

  type Row = seq<Cell>
  type Table = seq<Row>
  type Page = seq<Table>

  /** `row.querySelectorAll('td')`, as the cells' texts in document order. */
  function TdTexts(row: Row): (r: seq<string>)
    ensures |r| <= |row|
    ensures forall t :: t in r <==> Td(t) in row
  {
    if row == [] then []
    else (if row[0].Td? then [row[0].text] else []) + TdTexts(row[1..])
  }

  /** `row.querySelectorAll('th')`, as the cells' texts in document order. */
  function ThTexts(row: Row): (r: seq<string>)
    ensures |r| <= |row|
    ensures forall t :: t in r <==> Th(t) in row
  {
    if row == [] then []
    else (if row[0].Th? then [row[0].text] else []) + ThTexts(row[1..])
  }

  /** `table.querySelectorAll('th')`: the header cells of every row, row after row. */
  function HeaderTexts(table: Table): (r: seq<string>)
    ensures forall t :: t in r <==> exists i | 0 <= i < |table| :: Th(t) in table[i]
  {
    if table == [] then []
    else
      var r := ThTexts(table[0]) + HeaderTexts(table[1..]);
      assert forall i | 0 < i < |table| :: table[i] == table[1..][i - 1];
      r
  }

  /** A row's `td` and `th` cells together are all of its cells. */
  lemma {:induction false} CellsAreTdOrTh(row: Row)
    ensures |TdTexts(row)| + |ThTexts(row)| == |row|
  {
    if row != [] {
      CellsAreTdOrTh(row[1..]);
    }
  }

  /** One cell gives its text if it is a `td`, and nothing if it is a `th`. */
  lemma TdTextsOne(c: Cell)
    ensures TdTexts([c]) == if c.Td? then [c.text] else []
  {
    assert [c][1..] == [];
  }

  /** A row's `td` texts are those of its cells, one cell after the other. */
  lemma {:induction false} TdTextsByCell(row: Row)
    ensures row != [] ==> TdTexts(row) == TdTexts([row[0]]) + TdTexts(row[1..])
    ensures forall k | 0 <= k < |row| :: TdTexts(row) == TdTexts(row[..k]) + TdTexts([row[k]]) + TdTexts(row[k + 1..])
  {
    if row != [] {
      TdTextsOne(row[0]);
    }
    forall k | 0 <= k < |row|
      ensures TdTexts(row) == TdTexts(row[..k]) + TdTexts([row[k]]) + TdTexts(row[k + 1..])
    {
      TdTextsAround(row, k);
    }
  }

  /** The cells before cell `k`, cell `k` and the cells after it, in that order. */
  lemma TdTextsAround(row: Row, k: nat)
    requires k < |row|
    ensures TdTexts(row) == TdTexts(row[..k]) + TdTexts([row[k]]) + TdTexts(row[k + 1..])
  {
    var before, cell, after := row[..k], [row[k]], row[k + 1..];
    assert row == before + (cell + after);
    TdTextsAppend(before, cell + after);
    TdTextsAppend(cell, after);
  }

  /** Selecting cells works row segment by row segment, keeping document order. */
  lemma {:induction false} TdTextsAppend(a: Row, b: Row)
    ensures TdTexts(a + b) == TdTexts(a) + TdTexts(b)
  {
    if a == [] {
      assert a + b == b;
    } else {
      assert (a + b)[0] == a[0];
      assert (a + b)[1..] == a[1..] + b;
      TdTextsAppend(a[1..], b);
    }
  }
}

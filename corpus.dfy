/**
 * The corpus as both pipelines read it: the "Description" column of the CSV
 * with missing cells dropped, and the discovery corpus built from it.
 */
module Corpus {
  import opened Wrappers
  import opened PyStr

  const DescriptionColumn: string := "Description"
  const MissingColumnMessage: string := "CSV file must contain 'Description' column."

  /** A loaded CSV: each column name to its cells, `None` for a missing (NaN) cell, `Some(text)` for a cell read as text. */
  type Table = map<string, seq<Option<string>>>

  /** The Python exceptions a run can end with. */
  datatype Exception = ValueError(message: string) | TypeError | UnboundLocalError(name: string)

  /** `dropna()`: the present cells, in column order. */
  function DropMissing(cells: seq<Option<string>>): (texts: seq<string>)
    ensures |texts| <= |cells|
    decreases |cells|
  {
    if cells == [] then []
    else
      var rest := DropMissing(cells[1..]);
      match cells[0]
      case None => rest
      case Some(t) => [t] + rest
  }

  /** `dropna()` keeps each present text as many times as it occurs. */
  lemma {:induction false} DropMissingCounts(cells: seq<Option<string>>, t: string)
    ensures multiset(DropMissing(cells))[t] == multiset(cells)[Some(t)]
    decreases |cells|
  {
    if cells != [] {
      DropMissingCounts(cells[1..], t);
      assert cells == [cells[0]] + cells[1..];
      assert multiset(cells) == multiset{cells[0]} + multiset(cells[1..]);
      match cells[0]
      case None =>
      case Some(u) =>
        assert multiset(DropMissing(cells)) == multiset{u} + multiset(DropMissing(cells[1..]));
    }
  }

  /** `dropna()` keeps the order of the present cells: dropping from two halves and concatenating is dropping from the whole. */
  lemma {:induction false} DropMissingAppend(a: seq<Option<string>>, b: seq<Option<string>>)
    ensures DropMissing(a + b) == DropMissing(a) + DropMissing(b)
    decreases |a|
  {
    if a == [] {
      assert a + b == b;
    } else {
      DropMissingAppend(a[1..], b);
      var ab := a + b;
      assert ab[0] == a[0] && ab[1..] == a[1..] + b;
      var x, y := DropMissing(a[1..]), DropMissing(b);
      match a[0]
      case None =>
        assert DropMissing(ab) == x + y;
      case Some(t) =>
        assert DropMissing(ab) == [t] + (x + y);
        assert [t] + (x + y) == ([t] + x) + y;
    }
  }

  /**
   * The column check and the column read at the head of both pipelines: a
   * table without "Description" raises ValueError, any other yields the
   * present cells of that column.
   */
  function LoadCorpus(table: Table): (r: Result<seq<string>, Exception>)
    ensures r.Failure? <==> DescriptionColumn !in table
    ensures r.Failure? ==> r.error == ValueError(MissingColumnMessage)
    ensures r.Success? ==> r.value == DropMissing(table[DescriptionColumn])
  {
    if DescriptionColumn !in table then Failure(ValueError(MissingColumnMessage))
    else Success(DropMissing(table[DescriptionColumn]))
  }

  /** Separator placed between comments of the discovery corpus. */
  const Delimiter: string := "\nINICIO_DE_COMENTARIO: "

  /** `"\nINICIO_DE_COMENTARIO: ".join(comments)` */
  function DiscoveryCorpus(comments: seq<string>): string
  {
    Join(comments, Delimiter)
  }

  lemma DelimiterBorderFree()
    ensures BorderFree(Delimiter)
  {
    assert NoChar(Delimiter[1..], '\n');
    HeadUniqueBorderFree(Delimiter);
  }

  /**
   * The delimiter stands between consecutive comments and nowhere else: the
   * corpus starts with the first comment, splitting it on the delimiter gives
   * the comments back, and the delimiter occurs one time fewer than there are
   * comments, provided no comment holds the delimiter itself.
   */
  lemma DiscoveryCorpusDelimits(comments: seq<string>)
    requires comments != []
    requires forall i :: 0 <= i < |comments| ==> !Contains(comments[i], Delimiter)
    ensures DiscoveryCorpus(comments)[..|comments[0]|] == comments[0]
    ensures Split(DiscoveryCorpus(comments), Delimiter) == comments
    ensures Count(DiscoveryCorpus(comments), Delimiter) == |comments| - 1
  {
    DelimiterBorderFree();
    SplitJoin(comments, Delimiter);
    CountJoin(comments, Delimiter);
    if |comments| > 1 {
      assert DiscoveryCorpus(comments) == comments[0] + (Delimiter + Join(comments[1..], Delimiter));
    }
  }
}

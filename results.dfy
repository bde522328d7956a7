/**
 * The result map of `classify_comments` (a Python dict from comment to its
 * topics), how it evolves as comments are assigned, and the two-column rows
 * it is flattened into for the spreadsheet.
 */
module Results {
  import opened PyStr

  /** Stored in place of the topics when the response cannot be read. */
  const SentinelText: string := "Erro ao classificar o coment\U{E1}rio"

  /** A value stored in the dict: the parsed "Topics" list, or a plain string. */
  datatype Value = StrList(items: seq<string>) | Str(text: string)

  const Sentinel: Value := Str(SentinelText)

  /** An insertion-ordered dict from comment to value, as a value. */
  datatype Dict = Dict(keys: seq<string>, values: map<string, Value>)
  {
    /** Keys are distinct and are exactly the mapped comments. */
    ghost predicate Valid()
    {
      && (forall i, j :: 0 <= i < j < |keys| ==> keys[i] != keys[j])
      && (forall k :: k in values <==> k in keys)
    }

    /**
     * `d[k] = v`: a new key goes to the end, an existing key keeps its
     * place, and `k` now maps to `v`.
     */
    function Assign(k: string, v: Value): (d: Dict)
      requires Valid()
      ensures d.Valid()
      ensures d.values == values[k := v]
      ensures k in values ==> d.keys == keys
      ensures k !in values ==> d.keys == keys + [k]
    {
      Dict(if k in values then keys else keys + [k], values[k := v])
    }
  }

  /** The dict obtained from `{}` by assigning the pairs in order. */
  function Assigned(pairs: seq<(string, Value)>): (d: Dict)
    ensures d.Valid()
    ensures |d.keys| <= |pairs|
    decreases |pairs|
  {
    if pairs == [] then Dict([], map[])
    else
      var last := pairs[|pairs| - 1];
      Assigned(pairs[..|pairs| - 1]).Assign(last.0, last.1)
  }

  /** Assigning one more pair updates the dict built from the earlier ones. */
  lemma AssignedSnoc(pairs: seq<(string, Value)>, k: string, v: Value)
    ensures Assigned(pairs + [(k, v)]) == Assigned(pairs).Assign(k, v)
  {
    assert (pairs + [(k, v)])[..|pairs|] == pairs;
  }

  /** The comments of the pairs, in order. */
  function Comments(pairs: seq<(string, Value)>): (cs: seq<string>)
    ensures |cs| == |pairs|
    ensures forall i :: 0 <= i < |pairs| ==> cs[i] == pairs[i].0
  {
    seq(|pairs|, i requires 0 <= i < |pairs| => pairs[i].0)
  }

  /** Position of the first `k` in `cs`. */
  function FirstIndex(cs: seq<string>, k: string): (i: nat)
    requires k in cs
    ensures i < |cs| && cs[i] == k && k !in cs[..i]
  {
    if cs[0] == k then 0
    else
      var j := FirstIndex(cs[1..], k);
      assert cs[..j + 1] == [cs[0]] + cs[1..][..j];
      j + 1
  }

  /** Position of the last `k` in `cs`. */
  function LastIndex(cs: seq<string>, k: string): (i: nat)
    requires k in cs
    ensures i < |cs| && cs[i] == k && k !in cs[i + 1..]
    decreases |cs|
  {
    if cs[|cs| - 1] == k then |cs| - 1
    else
      var i := LastIndex(cs[..|cs| - 1], k);
      assert cs[i + 1..] == cs[..|cs| - 1][i + 1..] + [cs[|cs| - 1]];
      i
  }

  lemma CommentsPrefix(pairs: seq<(string, Value)>)
    requires pairs != []
    ensures Comments(pairs) == Comments(pairs[..|pairs| - 1]) + [pairs[|pairs| - 1].0]
  {
  }

  /** The dict's keys are exactly the comments assigned. */
  lemma {:induction false} AssignedKeys(pairs: seq<(string, Value)>)
    ensures forall k :: k in Assigned(pairs).keys <==> k in Comments(pairs)
    decreases |pairs|
  {
    if pairs != [] {
      AssignedKeys(pairs[..|pairs| - 1]);
      CommentsPrefix(pairs);
    }
  }

  /** Keys are in the order of their first assignment. */
  lemma {:induction false} AssignedFirstOccurrenceOrder(pairs: seq<(string, Value)>, i: int, j: int)
    requires 0 <= i < j < |Assigned(pairs).keys|
    ensures Assigned(pairs).keys[i] in Comments(pairs) && Assigned(pairs).keys[j] in Comments(pairs)
    ensures FirstIndex(Comments(pairs), Assigned(pairs).keys[i]) < FirstIndex(Comments(pairs), Assigned(pairs).keys[j])
    decreases |pairs|
  {
    AssignedKeys(pairs);
    var n := |pairs| - 1;
    var init := pairs[..n];
    var cs := Comments(pairs);
    var ki, kj := Assigned(pairs).keys[i], Assigned(pairs).keys[j];
    CommentsPrefix(pairs);
    AssignedKeys(init);
    var before := Assigned(init);
    FirstIndexOfPrefix(Comments(init), pairs[n].0, ki);
    if j < |before.keys| {
      AssignedFirstOccurrenceOrder(init, i, j);
      FirstIndexOfPrefix(Comments(init), pairs[n].0, kj);
    } else {
      // kj is the key appended by the last assignment, so it first occurs last
      assert kj == pairs[n].0 && kj !in before.values;
      assert kj !in Comments(init);
      assert FirstIndex(cs, kj) == n;
    }
  }

  lemma FirstIndexOfPrefix(cs: seq<string>, x: string, k: string)
    requires k in cs
    ensures FirstIndex(cs + [x], k) == FirstIndex(cs, k) < |cs|
  {
    var i := FirstIndex(cs, k);
    var j := FirstIndex(cs + [x], k);
    assert (cs + [x])[..i] == cs[..i];
    assert (cs + [x])[i] == k;
    assert forall m :: 0 <= m < i ==> (cs + [x])[m] == cs[m] && cs[m] != k;
    assert j <= i;
  }

  /** Each key holds the value of its last assignment: later results overwrite earlier ones. */
  lemma {:induction false} AssignedLastWriteWins(pairs: seq<(string, Value)>, k: string)
    requires k in Comments(pairs)
    ensures k in Assigned(pairs).values
    ensures Assigned(pairs).values[k] == pairs[LastIndex(Comments(pairs), k)].1
    decreases |pairs|
  {
    var n := |pairs| - 1;
    CommentsPrefix(pairs);
    if pairs[n].0 != k {
      assert k in Comments(pairs[..n]);
      AssignedLastWriteWins(pairs[..n], k);
      assert LastIndex(Comments(pairs), k) == LastIndex(Comments(pairs[..n]), k);
    }
  }

  /** Distinct comments give one key per pair, in the order assigned. */
  lemma {:induction false} AssignedDistinct(pairs: seq<(string, Value)>)
    requires forall i, j :: 0 <= i < j < |pairs| ==> pairs[i].0 != pairs[j].0
    ensures Assigned(pairs).keys == Comments(pairs)
    decreases |pairs|
  {
    if pairs != [] {
      var n := |pairs| - 1;
      AssignedDistinct(pairs[..n]);
      CommentsPrefix(pairs);
      AssignedKeys(pairs[..n]);
      assert pairs[n].0 !in Comments(pairs[..n]);
    }
  }

  /** `output.items()`: the dict's pairs in key order. */
  function Entries(d: Dict): (es: seq<(string, Value)>)
    requires d.Valid()
    ensures Comments(es) == d.keys
    ensures forall i :: 0 <= i < |es| ==> es[i].1 == d.values[es[i].0]
  {
    seq(|d.keys|, i requires 0 <= i < |d.keys| => (d.keys[i], d.values[d.keys[i]]))
  }

  /** The characters of a string, each as a one-character string: what iterating a Python str yields. */
  function Chars(s: string): (cs: seq<string>)
    ensures |cs| == |s|
    ensures forall i :: 0 <= i < |s| ==> cs[i] == [s[i]]
  {
    seq(|s|, i requires 0 <= i < |s| => [s[i]])
  }

  const CellSeparator: string := ", "

  /** `', '.join(v)`: a topics list is joined; a plain string is joined character by character. */
  function Cell(v: Value): string
  {
    match v
    case StrList(items) => Join(items, CellSeparator)
    case Str(s) => Join(Chars(s), CellSeparator)
  }

  /** The ("Comment", "Topics") rows of the spreadsheet. */
  function Rows(d: Dict): (rows: seq<(string, string)>)
    requires d.Valid()
    ensures |rows| == |d.keys|
    ensures forall i :: 0 <= i < |rows| ==> rows[i].0 == d.keys[i]
  {
    seq(|d.keys|, i requires 0 <= i < |d.keys| => (d.keys[i], Cell(d.values[d.keys[i]])))
  }

  lemma CellSeparatorBorderFree()
    ensures BorderFree(CellSeparator)
  {
    assert NoChar(CellSeparator[1..], ',');
    HeadUniqueBorderFree(CellSeparator);
  }

  /** Splitting a list cell on ", " gives the list back when no topic holds ", ". */
  lemma CellSplitsBack(items: seq<string>)
    requires items != []
    requires forall i :: 0 <= i < |items| ==> !Contains(items[i], CellSeparator)
    ensures Split(Cell(StrList(items)), CellSeparator) == items
  {
    CellSeparatorBorderFree();
    SplitJoin(items, CellSeparator);
  }

  /** A plain-string cell is its characters separated by ", ", and splits back into them. */
  lemma StringCellIsCharacters(s: string)
    requires s != []
    ensures Split(Cell(Str(s)), CellSeparator) == Chars(s)
    ensures |Cell(Str(s))| == 3 * |s| - 2
  {
    CellSeparatorBorderFree();
    var cs := Chars(s);
    forall i | 0 <= i < |cs|
      ensures !Contains(cs[i], CellSeparator)
    {
      assert |cs[i]| < |CellSeparator|;
    }
    SplitJoin(cs, CellSeparator);
    JoinSingletonsLength(cs);
  }

  lemma {:induction false} JoinSingletonsLength(cs: seq<string>)
    requires cs != []
    requires forall i :: 0 <= i < |cs| ==> |cs[i]| == 1
    ensures |Join(cs, CellSeparator)| == 3 * |cs| - 2
    decreases |cs|
  {
    if |cs| > 1 {
      JoinSingletonsLength(cs[1..]);
    }
  }

  /**
   * The spreadsheet agrees with the JSON document: one row per entry in the
   * same order, the same comment, and a list cell that splits back into the
   * entry's topics when none of them holds ", ".
   */
  lemma RowsMatchEntries(d: Dict, i: int)
    requires d.Valid() && 0 <= i < |d.keys|
    ensures |Rows(d)| == |Entries(d)|
    ensures Rows(d)[i].0 == Entries(d)[i].0
    ensures Rows(d)[i].1 == Cell(Entries(d)[i].1)
    ensures Entries(d)[i].1.StrList? && Entries(d)[i].1.items != []
              && (forall t :: t in Entries(d)[i].1.items ==> !Contains(t, CellSeparator))
            ==> Split(Rows(d)[i].1, CellSeparator) == Entries(d)[i].1.items
  {
    var v := Entries(d)[i].1;
    if v.StrList? && v.items != [] && (forall t :: t in v.items ==> !Contains(t, CellSeparator)) {
      CellSplitsBack(v.items);
    }
  }
}

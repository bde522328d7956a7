/**
 * Output file names. Every name is the corpus path with each ".csv" replaced
 * by a suffix; model ids enter a name with each '.' replaced by '_'.
 */
module Naming {
  import opened PyStr

  const CsvSuffix: string := ".csv"

  /** `model.replace('.', '_')`: the same id, character by character, with every dot turned into an underscore. */
  function Sanitize(model: string): (r: string)
    ensures |r| == |model|
    ensures forall i :: 0 <= i < |r| ==> r[i] == if model[i] == '.' then '_' else model[i]
    ensures NoChar(r, '.')
  {
    seq(|model|, i requires 0 <= i < |model| => if model[i] == '.' then '_' else model[i])
  }

  /** The character-wise definition agrees with replacing every occurrence of "." by "_". */
  lemma {:induction false} SanitizeIsReplace(s: string)
    ensures Sanitize(s) == ReplaceAll(s, ".", "_")
    decreases |s|
  {
    if s != [] {
      SanitizeIsReplace(s[1..]);
      var r, t := Sanitize(s), Sanitize(s[1..]);
      assert r == r[..1] + t by {
        assert forall i :: 1 <= i < |r| ==> r[i] == t[i - 1];
      }
      if s[0] == '.' {
        assert s[..1] == ".";
        assert ReplaceAll(s, ".", "_") == "_" + ReplaceAll(s[1..], ".", "_");
      } else {
        assert s[..1] != "." by { assert s[..1][0] == s[0]; }
        assert ReplaceAll(s, ".", "_") == [s[0]] + ReplaceAll(s[1..], ".", "_");
      }
    }
  }

  /** Name of the JSON result of `classify_comments`. */
  function JsonName(corpusFile: string, model: string): string
  {
    ReplaceAll(corpusFile, CsvSuffix, "_comment_topics_" + Sanitize(model) + ".json")
  }

  /** Name of the spreadsheet result of `classify_comments`. */
  function ExcelName(corpusFile: string, model: string): string
  {
    ReplaceAll(corpusFile, CsvSuffix, "_comment_topics_" + Sanitize(model) + ".xlsx")
  }

  /** Name of the saved discovery prompt of `topic_modeling`. */
  function PromptName(corpusFile: string): string
  {
    ReplaceAll(corpusFile, CsvSuffix, "_prompt.txt")
  }

  /** Name of one model's topic list in `topic_modeling`. */
  function TopicsName(corpusFile: string, model: string): string
  {
    ReplaceAll(corpusFile, CsvSuffix, "_topics_" + Sanitize(model) + ".txt")
  }

  lemma CsvBorderFree()
    ensures BorderFree(CsvSuffix)
  {
    assert NoChar(CsvSuffix[1..], '.');
    HeadUniqueBorderFree(CsvSuffix);
  }

  lemma ReplaceCsvSuffix(base: string, rep: string)
    requires !Contains(base, CsvSuffix)
    ensures ReplaceAll(base + CsvSuffix, CsvSuffix, rep) == base + rep
  {
    CsvBorderFree();
    ReplaceAtFirst(base, CsvSuffix, "", rep);
    assert base + CsvSuffix + "" == base + CsvSuffix;
    assert ReplaceAll("", CsvSuffix, rep) == "";
  }

  /**
   * For a corpus path "<base>.csv" with no other ".csv" in it, every output
   * name is "<base>" followed by its suffix; the JSON and spreadsheet names
   * differ only in their extension.
   */
  lemma CsvPathNames(base: string, model: string)
    requires !Contains(base, CsvSuffix)
    ensures JsonName(base + CsvSuffix, model) == base + "_comment_topics_" + Sanitize(model) + ".json"
    ensures ExcelName(base + CsvSuffix, model) == base + "_comment_topics_" + Sanitize(model) + ".xlsx"
    ensures PromptName(base + CsvSuffix) == base + "_prompt.txt"
    ensures TopicsName(base + CsvSuffix, model) == base + "_topics_" + Sanitize(model) + ".txt"
  {
    ReplaceCsvSuffix(base, "_comment_topics_" + Sanitize(model) + ".json");
    ReplaceCsvSuffix(base, "_comment_topics_" + Sanitize(model) + ".xlsx");
    ReplaceCsvSuffix(base, "_prompt.txt");
    ReplaceCsvSuffix(base, "_topics_" + Sanitize(model) + ".txt");
  }

  /**
   * A corpus path without ".csv" is left as it is, so every output name is
   * the corpus path itself: the results overwrite the input and each other.
   */
  lemma NamesWithoutCsv(corpusFile: string, model: string)
    requires !Contains(corpusFile, CsvSuffix)
    ensures JsonName(corpusFile, model) == corpusFile
    ensures ExcelName(corpusFile, model) == corpusFile
    ensures PromptName(corpusFile) == corpusFile
    ensures TopicsName(corpusFile, model) == corpusFile
  {
  }

  /** Model ids that sanitise differently get different topic files. */
  lemma TopicsNamesDiffer(base: string, m1: string, m2: string)
    requires !Contains(base, CsvSuffix)
    requires Sanitize(m1) != Sanitize(m2)
    ensures TopicsName(base + CsvSuffix, m1) != TopicsName(base + CsvSuffix, m2)
  {
    CsvPathNames(base, m1);
    CsvPathNames(base, m2);
    var head := base + "_topics_";
    var s1, s2 := Sanitize(m1), Sanitize(m2);
    var n1, n2 := head + s1 + ".txt", head + s2 + ".txt";
    assert n1[|head|..|head| + |s1|] == s1;
    assert n2[|head|..|head| + |s2|] == s2;
    assert |n1| == |n2| ==> |s1| == |s2|;
  }
}

/**
 * The two pipelines of the topic-modelling script. `classify_comments` walks
 * the corpus, asks the model for the topics of each comment, normalises and
 * parses the reply, records the result in an insertion-ordered dict and
 * writes that dict as JSON and as a spreadsheet. `topic_modeling` sends one
 * prompt holding the whole corpus to four models in turn and saves each reply.
 *
 * A run is observed through its effects (completion requests and file writes,
 * in order) and how it ends: returning a value or raising an exception.
 */
module Pipeline {
  import opened Wrappers
  import opened PyStr
  import opened Normalizer
  import opened Naming
  import opened Corpus
  import opened Results

  /** What `json.loads(cleaned)["Topics"]` does with a cleaned reply. */
  datatype Parsed =
    | Topics(items: seq<string>)  // a JSON object whose "Topics" is a list of strings
    | DecodeOrKeyError            // not JSON, or an object without "Topics": caught
    | NotAnObject                 // JSON that is not an object: TypeError, not caught

  /**
   * The completion service: the number of the request within the run, the
   * prompt and the model id, to the reply text. The request number lets two
   * requests with the same prompt get different replies, as a sampling model may.
   */
  type Backend = (nat, string, string) -> string

  /** `json.loads(...)["Topics"]` as an oracle. */
  type Parser = string -> Parsed

  datatype Content =
    | JsonDoc(entries: seq<(string, Value)>)
    | Sheet(rows: seq<(string, string)>)
    | Plain(text: string)

  datatype Effect =
    | Complete(prompt: string, model: string)
    | Write(name: string, content: Content)

  datatype Run<T> =
    | Returned(effects: seq<Effect>, value: T)
    | Raised(effects: seq<Effect>, error: Exception)

  // ================================================================ classification

  const ClassifyModel: string := "gemini-2.0-flash"
  const DefaultCeiling: int := 150

  /** The fixed list of 18 topics offered to the model. */
  const Taxonomy: seq<string> := [
    "Responsabilidade da Braskem",
    "Crime ambiental",
    "Omiss\U{E3}o dos \U{F3}rg\U{E3}os p\U{FA}blicos",
    "Disputa pol\U{ED}tica",
    "Impacto na popula\U{E7}\U{E3}o",
    "Acordo da Braskem",
    "Relat\U{F3}rio da CPI",
    "Mina 18",
    "Colpaso Mina",
    "Afundamento do solo",
    "Repara\U{E7}\U{E3}o das v\U{ED}timas",
    "Corrup\U{E7}\U{E3}o",
    "Justi\U{E7}a e indeniza\U{E7}\U{E3}o",
    "Petrobras Odebrecht",
    "Estado Omisso",
    "Lira e Calheiros",
    "Falta de credibilidade da CPI",
    "Explora\U{E7}\U{E3}o gananciosa"
  ]

  /**
   * `str(items)` for a list of strings holding no quote or backslash: each
   * item between single quotes, comma-separated, in brackets.
   */
  function ListRepr(items: seq<string>): string
  {
    "[" + Join(seq(|items|, i requires 0 <= i < |items| => "'" + items[i] + "'"), ", ") + "]"
  }

  /** Stand-in for the instruction prose that opens the classification template. */
  const ClassifyInstructions: string := "<classification instructions>\n"

  /** The classification prompt: the instructions, the comment, then the taxonomy. */
  function ClassifyPrompt(comment: string): (p: string)
    ensures Contains(p, comment)
  {
    var head := ClassifyInstructions + "<comentario>";
    var p := head + comment + "</comentario> \n<topicos>" + ListRepr(Taxonomy) + "</topicos>\n";
    assert p[|head|..|head| + |comment|] == comment;
    assert OccursAt(p, comment, |head|);
    ContainsIff(p, comment);
    p
  }

  /** How many comments `classify_comments` handles: `count >= n` is tested after each one. */
  function Limit(total: nat, ceiling: int): (k: nat)
    ensures k <= total
    ensures 0 < total ==> 1 <= k
    ensures k < total ==> k == if ceiling < 1 then 1 else ceiling
    ensures k <= if ceiling < 1 then 1 else ceiling
  {
    if ceiling < 1 then (if total < 1 then total else 1)
    else if total < ceiling then total
    else ceiling
  }

  /** What the dict receives for one comment, or `None` when the parse raises TypeError. */
  function Annotation(comment: string, n: nat, backend: Backend, parse: Parser): Option<Value>
  {
    match parse(Normalize(backend(n, ClassifyPrompt(comment), ClassifyModel)))
    case Topics(items) => Some(StrList(items))
    case DecodeOrKeyError => Some(Sentinel)
    case NotAnObject => None
  }

  /** The outcome of one pass of the loop: the comment and the number of its request, to its `Annotation`. */
  type Step = (string, nat) -> Option<Value>

  /** `step` gives each comment the `Annotation` this service and parser produce. */
  ghost predicate StepOf(step: Step, backend: Backend, parse: Parser)
  {
    forall c, n {:trigger Annotation(c, n, backend, parse)} :: step(c, n) == Annotation(c, n, backend, parse)
  }

  /** The step of `classify_comments` for a given service and parser. */
  function ClassifyStep(backend: Backend, parse: Parser): (step: Step)
    ensures StepOf(step, backend, parse)
  {
    (c: string, n: nat) => Annotation(c, n, backend, parse)
  }

  /** Requests made and (comment, value) assignments done for a prefix of the corpus. */
  datatype Progress = Progress(requests: seq<Effect>, pairs: seq<(string, Value)>, crashed: bool)

  /** The loop of `classify_comments` over `cs`, as a fold from the left. */
  function Annotate(cs: seq<string>, step: Step): Progress
    decreases |cs|
  {
    if cs == [] then Progress([], [], false)
    else
      var before := Annotate(cs[..|cs| - 1], step);
      if before.crashed then before
      else
        var c := cs[|cs| - 1];
        var request := Complete(ClassifyPrompt(c), ClassifyModel);
        match step(c, |cs| - 1)
        case None => Progress(before.requests + [request], before.pairs, true)
        case Some(v) => Progress(before.requests + [request], before.pairs + [(c, v)], false)
  }

  /** The two files written at the end of `classify_comments`. */
  function ResultWrites(corpusFile: string, d: Dict): seq<Effect>
    requires d.Valid()
  {
    [ Write(JsonName(corpusFile, ClassifyModel), JsonDoc(Entries(d))),
      Write(ExcelName(corpusFile, ClassifyModel), Sheet(Rows(d))) ]
  }

  /** Reference definition of a whole `classify_comments` run. */
  function Classification(corpusFile: string, table: Table, ceiling: int, backend: Backend, parse: Parser): Run<()>
  {
    match LoadCorpus(table)
    case Failure(e) => Raised([], e)
    case Success(corpus) => CorpusClassification(corpusFile, corpus, ceiling, ClassifyStep(backend, parse))
  }

  /** The part of a run after the column check, for the loaded corpus. */
  function CorpusClassification(corpusFile: string, corpus: seq<string>, ceiling: int, step: Step): Run<()>
  {
    var p := Annotate(corpus[..Limit(|corpus|, ceiling)], step);
    if p.crashed then Raised(p.requests, TypeError)
    else if corpus == [] then Raised([], UnboundLocalError("googleai_model"))
    else Returned(p.requests + ResultWrites(corpusFile, Assigned(p.pairs)), ())
  }

  /** Once a comment has raised, later comments are never reached. */
  lemma {:induction false} CrashPersists(cs: seq<string>, j: nat, m: nat, step: Step)
    requires j <= m <= |cs|
    requires Annotate(cs[..j], step).crashed
    ensures Annotate(cs[..m], step) == Annotate(cs[..j], step)
    decreases m
  {
    if j < m {
      CrashPersists(cs, j, m - 1, step);
      assert cs[..m][..m - 1] == cs[..m - 1];
    }
  }

  /** The fold over one more comment: a request for it, then its value recorded or the crash. */
  lemma AnnotateNext(cs: seq<string>, i: nat, step: Step)
    requires i < |cs| && !Annotate(cs[..i], step).crashed
    ensures
      var before := Annotate(cs[..i], step);
      var request := Complete(ClassifyPrompt(cs[i]), ClassifyModel);
      Annotate(cs[..i + 1], step)
      == match step(cs[i], i)
         case None => Progress(before.requests + [request], before.pairs, true)
         case Some(v) => Progress(before.requests + [request], before.pairs + [(cs[i], v)], false)
  {
    assert cs[..i + 1][..i] == cs[..i];
  }

  /** A comment that parses to an object extends the requests and the dict by one. */
  lemma AnnotateAdvance(cs: seq<string>, i: nat, step: Step, v: Value)
    requires i < |cs| && !Annotate(cs[..i], step).crashed
    requires step(cs[i], i) == Some(v)
    ensures
      var before := Annotate(cs[..i], step);
      var after := Annotate(cs[..i + 1], step);
      && !after.crashed
      && after.requests == before.requests + [Complete(ClassifyPrompt(cs[i]), ClassifyModel)]
      && Assigned(after.pairs) == Assigned(before.pairs).Assign(cs[i], v)
  {
    AnnotateNext(cs, i, step);
    AssignedSnoc(Annotate(cs[..i], step).pairs, cs[i], v);
  }

  /** A handled comment that parses to a non-object ends the run with its request as the last effect. */
  lemma CrashedClassification(corpusFile: string, corpus: seq<string>, ceiling: int, step: Step, i: nat)
    requires i < Limit(|corpus|, ceiling) && !Annotate(corpus[..i], step).crashed
    requires step(corpus[i], i) == None
    ensures CorpusClassification(corpusFile, corpus, ceiling, step)
            == Raised(Annotate(corpus[..i], step).requests + [Complete(ClassifyPrompt(corpus[i]), ClassifyModel)], TypeError)
  {
    AnnotateNext(corpus, i, step);
    CrashPersists(corpus, i + 1, Limit(|corpus|, ceiling), step);
  }

  /** A run whose handled comments all parse to objects returns their requests followed by the two writes. */
  lemma CompletedClassification(corpusFile: string, corpus: seq<string>, ceiling: int, step: Step)
    requires corpus != []
    requires !Annotate(corpus[..Limit(|corpus|, ceiling)], step).crashed
    ensures
      var p := Annotate(corpus[..Limit(|corpus|, ceiling)], step);
      CorpusClassification(corpusFile, corpus, ceiling, step)
      == Returned(p.requests + ResultWrites(corpusFile, Assigned(p.pairs)), ())
  {
  }

  /** The loop stops at the ceiling check once `Limit` comments are handled. */
  lemma CeilingReached(total: nat, ceiling: int, i: nat)
    requires 0 < i <= total && i - 1 < Limit(total, ceiling) && i >= ceiling
    ensures i == Limit(total, ceiling)
  {
  }

  /** `classify_comments(corpus_file, n_of_comments)` */
  method ClassifyComments(corpusFile: string, table: Table, ceiling: int, backend: Backend, parse: Parser)
    returns (run: Run<()>)
    ensures run == Classification(corpusFile, table, ceiling, backend, parse)
  {
    var loaded := LoadCorpus(table);
    if loaded.Failure? {
      return Raised([], loaded.error);
    }
    run := ClassifyCorpus(corpusFile, loaded.value, ceiling, backend, parse, ClassifyStep(backend, parse));
  }

  /**
   * One pass of the loop of `classify_comments` up to the dict assignment:
   * build the prompt for `comment`, request its completion as request number
   * `n`, clean the reply and parse it. The verdict is the value to store, or
   * `None` when the parse raises TypeError.
   */
  method ClassifyOne(comment: string, n: nat, backend: Backend, parse: Parser, ghost step: Step)
    returns (request: Effect, verdict: Option<Value>)
    requires StepOf(step, backend, parse)
    ensures request == Complete(ClassifyPrompt(comment), ClassifyModel)
    ensures verdict == step(comment, n)
  {
    var prompt := ClassifyPrompt(comment);
    var raw := backend(n, prompt, ClassifyModel);
    request := Complete(prompt, ClassifyModel);
    var cleaned := Normalize(raw);
    assert step(comment, n) == Annotation(comment, n, backend, parse);
    match parse(cleaned) {
      case Topics(items) => verdict := Some(StrList(items));
      case DecodeOrKeyError => verdict := Some(Sentinel);
      case NotAnObject => verdict := None;
    }
  }

  /**
   * The rest of `classify_comments` once the corpus is loaded: the loop, the
   * read of the model name bound in it, and the two writes. `step` is what
   * each comment yields, the `Annotation` under this service and parser.
   */
  method ClassifyCorpus(corpusFile: string, corpus: seq<string>, ceiling: int, backend: Backend, parse: Parser, ghost step: Step)
    returns (run: Run<()>)
    requires StepOf(step, backend, parse)
    ensures run == CorpusClassification(corpusFile, corpus, ceiling, step)
  {
    var output := Dict([], map[]);
    var effects: seq<Effect> := [];
    var modelBound := false;  // whether the local `googleai_model` has been assigned
    var count := 0;
    var i := 0;
    while i < |corpus|
      invariant 0 <= i <= |corpus|
      invariant count == i
      invariant modelBound <==> 0 < i
      invariant i <= Limit(|corpus|, ceiling)
      invariant 0 < i ==> i < ceiling
      invariant !Annotate(corpus[..i], step).crashed
      invariant effects == Annotate(corpus[..i], step).requests
      invariant output == Assigned(Annotate(corpus[..i], step).pairs)
    {
      var comment := corpus[i];
      modelBound := true;
      var request, verdict := ClassifyOne(comment, count, backend, parse, step);
      if verdict.None? {
        CrashedClassification(corpusFile, corpus, ceiling, step, i);
        return Raised(effects + [request], TypeError);
      }
      AnnotateAdvance(corpus, i, step, verdict.value);
      effects := effects + [request];
      output := output.Assign(comment, verdict.value);
      count := count + 1;
      i := i + 1;
      if count >= ceiling {
        CeilingReached(|corpus|, ceiling, i);
        break;
      }
    }
    if !modelBound {
      return Raised(effects, UnboundLocalError("googleai_model"));
    }
    CompletedClassification(corpusFile, corpus, ceiling, step);
    effects := effects + ResultWrites(corpusFile, output);
    return Returned(effects, ());
  }

  // ---------------------------------------------------------------- properties of a classification run

  /**
   * The fold handles every comment in order: it stops only at a comment whose
   * reply parses to a non-object, and otherwise makes one request per comment
   * and records one assignment per comment, the parsed topics or the sentinel.
   */
  lemma {:induction false} AnnotateOutcome(cs: seq<string>, step: Step)
    ensures (Annotate(cs, step).crashed <==> exists i :: 0 <= i < |cs| && step(cs[i], i) == None)
    ensures !Annotate(cs, step).crashed ==>
              var p := Annotate(cs, step);
              && |p.requests| == |cs| && |p.pairs| == |cs|
              && forall i :: 0 <= i < |cs| ==>
                   && p.requests[i] == Complete(ClassifyPrompt(cs[i]), ClassifyModel)
                   && p.pairs[i].0 == cs[i]
                   && step(cs[i], i) == Some(p.pairs[i].1)
    decreases |cs|
  {
    if cs != [] {
      var n := |cs| - 1;
      var init := cs[..n];
      AnnotateOutcome(init, step);
      assert forall i :: 0 <= i < n ==> init[i] == cs[i];
      if Annotate(init, step).crashed {
        var i :| 0 <= i < n && step(init[i], i) == None;
        assert step(cs[i], i) == None;
      }
    }
  }

  /** `Annotate` yields exactly the comments it was given. */
  lemma AnnotateComments(cs: seq<string>, step: Step)
    requires !Annotate(cs, step).crashed
    ensures Comments(Annotate(cs, step).pairs) == cs
  {
    AnnotateOutcome(cs, step);
  }

  /** Neither pipeline makes a request or writes a file when the "Description" column is missing. */
  lemma MissingDescriptionRaisesFirst(corpusFile: string, table: Table, ceiling: int, backend: Backend, parse: Parser)
    requires DescriptionColumn !in table
    ensures Classification(corpusFile, table, ceiling, backend, parse) == Raised([], ValueError(MissingColumnMessage))
    ensures TopicModeling(corpusFile, table, backend) == Raised([], ValueError(MissingColumnMessage))
  {
  }

  /**
   * A classification run raises only when the corpus is empty (the model name
   * is never bound) or when one of the handled replies parses to a non-object;
   * a reply that fails to decode or lacks "Topics" never stops the run.
   */
  lemma ClassificationRaises(corpusFile: string, table: Table, ceiling: int, backend: Backend, parse: Parser)
    requires DescriptionColumn in table
    ensures
      var corpus := LoadCorpus(table).value;
      var k := Limit(|corpus|, ceiling);
      var run := Classification(corpusFile, table, ceiling, backend, parse);
      && (run.Raised? <==>
            (corpus == [] ||
             exists i :: 0 <= i < k && parse(Normalize(backend(i, ClassifyPrompt(corpus[i]), ClassifyModel))) == NotAnObject))
      && (corpus == [] ==> run == Raised([], UnboundLocalError("googleai_model")))
      && (run.Raised? && corpus != [] ==> run.error == TypeError)
  {
    var corpus := LoadCorpus(table).value;
    var k := Limit(|corpus|, ceiling);
    var cs := corpus[..k];
    var step := ClassifyStep(backend, parse);
    var p := Annotate(cs, step);
    AnnotateOutcome(cs, step);
    assert Classification(corpusFile, table, ceiling, backend, parse)
           == if p.crashed then Raised(p.requests, TypeError)
              else if corpus == [] then Raised([], UnboundLocalError("googleai_model"))
              else Returned(p.requests + ResultWrites(corpusFile, Assigned(p.pairs)), ());
    forall i | 0 <= i < k
      ensures step(cs[i], i) == None
              <==> parse(Normalize(backend(i, ClassifyPrompt(corpus[i]), ClassifyModel))) == NotAnObject
    {
      assert cs[i] == corpus[i];
    }
  }

  /**
   * Ceiling: a run that returns asks for the completions of exactly the first
   * `min(len(corpus), max(n_of_comments, 1))` comments, in corpus order, and
   * then writes the JSON file and the spreadsheet.
   */
  lemma ClassificationCeiling(corpusFile: string, table: Table, ceiling: int, backend: Backend, parse: Parser)
    requires Classification(corpusFile, table, ceiling, backend, parse).Returned?
    ensures DescriptionColumn in table
    ensures
      var corpus := LoadCorpus(table).value;
      var k := Limit(|corpus|, ceiling);
      var run := Classification(corpusFile, table, ceiling, backend, parse);
      && k == (if |corpus| < (if ceiling < 1 then 1 else ceiling) then |corpus| else (if ceiling < 1 then 1 else ceiling))
      && |run.effects| == k + 2
      && (forall i :: 0 <= i < k ==> run.effects[i] == Complete(ClassifyPrompt(corpus[i]), ClassifyModel))
      && run.effects[k].Write? && run.effects[k].name == JsonName(corpusFile, ClassifyModel)
      && run.effects[k + 1].Write? && run.effects[k + 1].name == ExcelName(corpusFile, ClassifyModel)
  {
    var corpus, k, p, d := ReturnedDocument(corpusFile, table, ceiling, backend, parse);
    var cs := corpus[..k];
    AnnotateOutcome(cs, ClassifyStep(backend, parse));
    var run := Classification(corpusFile, table, ceiling, backend, parse);
    forall i | 0 <= i < k
      ensures run.effects[i] == Complete(ClassifyPrompt(corpus[i]), ClassifyModel)
    {
      assert run.effects[i] == run.effects[..k][i];
      assert cs[i] == corpus[i];
    }
  }

  /** The handled comments' progress and the dict written by a run that returns, as they sit in its effects. */
  lemma ReturnedDocument(corpusFile: string, table: Table, ceiling: int, backend: Backend, parse: Parser)
    returns (corpus: seq<string>, k: nat, p: Progress, d: Dict)
    requires Classification(corpusFile, table, ceiling, backend, parse).Returned?
    ensures DescriptionColumn in table && corpus == LoadCorpus(table).value
    ensures k == Limit(|corpus|, ceiling) && p == Annotate(corpus[..k], ClassifyStep(backend, parse))
    ensures !p.crashed && |p.requests| == k && d == Assigned(p.pairs)
    ensures
      var run := Classification(corpusFile, table, ceiling, backend, parse);
      && |run.effects| == k + 2
      && run.effects[..k] == p.requests
      && run.effects[k] == Write(JsonName(corpusFile, ClassifyModel), JsonDoc(Entries(d)))
      && run.effects[k + 1] == Write(ExcelName(corpusFile, ClassifyModel), Sheet(Rows(d)))
  {
    ReturnedShape(corpusFile, table, ceiling, backend, parse);
    corpus := LoadCorpus(table).value;
    k := Limit(|corpus|, ceiling);
    p := Annotate(corpus[..k], ClassifyStep(backend, parse));
    d := Assigned(p.pairs);
    AnnotateOutcome(corpus[..k], ClassifyStep(backend, parse));
    var w := ResultWrites(corpusFile, d);
    var run := Classification(corpusFile, table, ceiling, backend, parse);
    assert run.effects == p.requests + w;
    assert run.effects[k] == w[0] && run.effects[k + 1] == w[1];
    assert run.effects[..k] == p.requests;
  }

  /** A run that returns is the requests for the handled comments followed by the two writes. */
  lemma ReturnedShape(corpusFile: string, table: Table, ceiling: int, backend: Backend, parse: Parser)
    requires Classification(corpusFile, table, ceiling, backend, parse).Returned?
    ensures DescriptionColumn in table
    ensures
      var corpus := LoadCorpus(table).value;
      var p := Annotate(corpus[..Limit(|corpus|, ceiling)], ClassifyStep(backend, parse));
      && corpus != [] && !p.crashed
      && Classification(corpusFile, table, ceiling, backend, parse).effects
         == p.requests + ResultWrites(corpusFile, Assigned(p.pairs))
  {
  }

  /**
   * The JSON document of a run that returns: its keys are the distinct
   * handled comments, in the order each first appears in the corpus, and each
   * holds what the reply to its last handled occurrence gave (later results
   * overwrite earlier ones): the parsed topics, or the sentinel when the reply
   * could not be decoded or had no "Topics".
   */
  lemma ClassificationJson(corpusFile: string, table: Table, ceiling: int, backend: Backend, parse: Parser)
    requires Classification(corpusFile, table, ceiling, backend, parse).Returned?
    ensures DescriptionColumn in table
    ensures
      var corpus := LoadCorpus(table).value;
      var k := Limit(|corpus|, ceiling);
      var run := Classification(corpusFile, table, ceiling, backend, parse);
      && k < |run.effects| && run.effects[k].Write? && run.effects[k].content.JsonDoc?
      && var es := run.effects[k].content.entries;
         && |es| <= k
         && (forall c :: c in Comments(es) <==> c in corpus[..k])
         && (forall i, j :: 0 <= i < j < |es| ==>
               && es[i].0 in corpus[..k] && es[j].0 in corpus[..k]
               && FirstIndex(corpus[..k], es[i].0) < FirstIndex(corpus[..k], es[j].0))
         && (forall i :: 0 <= i < |es| ==>
               es[i].0 in corpus[..k] &&
               var last := LastIndex(corpus[..k], es[i].0);
               Annotation(corpus[last], last, backend, parse) == Some(es[i].1))
  {
    var corpus, k, p, d := ReturnedDocument(corpusFile, table, ceiling, backend, parse);
    var cs := corpus[..k];
    AnnotateComments(cs, ClassifyStep(backend, parse));
    var es := Entries(d);
    AssignedKeys(p.pairs);
    assert Comments(es) == d.keys;
    forall i, j | 0 <= i < j < |es|
      ensures es[i].0 in cs && es[j].0 in cs && FirstIndex(cs, es[i].0) < FirstIndex(cs, es[j].0)
    {
      AssignedFirstOccurrenceOrder(p.pairs, i, j);
    }
    AnnotateOutcome(cs, ClassifyStep(backend, parse));
    forall i | 0 <= i < |es|
      ensures es[i].0 in cs
      ensures var last := LastIndex(cs, es[i].0); Annotation(corpus[last], last, backend, parse) == Some(es[i].1)
    {
      assert es[i].0 == d.keys[i];
      AssignedLastWriteWins(p.pairs, es[i].0);
      var last := LastIndex(cs, es[i].0);
      assert d.values[es[i].0] == p.pairs[last].1;
      assert ClassifyStep(backend, parse)(cs[last], last) == Some(p.pairs[last].1);
      assert cs[last] == corpus[last];
    }
  }

  /** With distinct comments there is one entry per handled comment, in corpus order. */
  lemma ClassificationDistinct(corpusFile: string, table: Table, ceiling: int, backend: Backend, parse: Parser)
    requires Classification(corpusFile, table, ceiling, backend, parse).Returned?
    requires DescriptionColumn in table
    requires var corpus := LoadCorpus(table).value;
             forall i, j :: 0 <= i < j < |corpus| ==> corpus[i] != corpus[j]
    ensures
      var corpus := LoadCorpus(table).value;
      var k := Limit(|corpus|, ceiling);
      var run := Classification(corpusFile, table, ceiling, backend, parse);
      && k < |run.effects| && run.effects[k].Write? && run.effects[k].content.JsonDoc?
      && Comments(run.effects[k].content.entries) == corpus[..k]
  {
    var corpus, k, p, d := ReturnedDocument(corpusFile, table, ceiling, backend, parse);
    var cs := corpus[..k];
    AnnotateComments(cs, ClassifyStep(backend, parse));
    assert forall i :: 0 <= i < |p.pairs| ==> p.pairs[i].0 == cs[i];
    AssignedDistinct(p.pairs);
  }

  /** 200 distinct comments under the default ceiling of 150 give exactly 150 entries. */
  lemma DefaultCeilingExample(corpusFile: string, table: Table, backend: Backend, parse: Parser)
    requires Classification(corpusFile, table, DefaultCeiling, backend, parse).Returned?
    requires DescriptionColumn in table
    requires var corpus := LoadCorpus(table).value;
             |corpus| == 200 && forall i, j :: 0 <= i < j < |corpus| ==> corpus[i] != corpus[j]
    ensures
      var run := Classification(corpusFile, table, DefaultCeiling, backend, parse);
      && 150 < |run.effects| && run.effects[150].Write? && run.effects[150].content.JsonDoc?
      && |run.effects[150].content.entries| == 150
  {
    ClassificationDistinct(corpusFile, table, DefaultCeiling, backend, parse);
  }

  /** The spreadsheet has one row per JSON entry, in the same order, holding the entry's comment and its joined value. */
  lemma ClassificationSheet(corpusFile: string, table: Table, ceiling: int, backend: Backend, parse: Parser)
    requires Classification(corpusFile, table, ceiling, backend, parse).Returned?
    ensures DescriptionColumn in table
    ensures
      var corpus := LoadCorpus(table).value;
      var k := Limit(|corpus|, ceiling);
      var run := Classification(corpusFile, table, ceiling, backend, parse);
      && k + 1 < |run.effects| && run.effects[k].Write? && run.effects[k + 1].Write?
      && run.effects[k].content.JsonDoc? && run.effects[k + 1].content.Sheet?
      && var es := run.effects[k].content.entries;
         var rows := run.effects[k + 1].content.rows;
         && |rows| == |es|
         && forall i :: 0 <= i < |es| ==> rows[i] == (es[i].0, Cell(es[i].1))
  {
    var corpus, k, p, d := ReturnedDocument(corpusFile, table, ceiling, backend, parse);
  }

  // ================================================================ discovery

  /** The models swept by `topic_modeling`, in order. */
  const DiscoveryModels: seq<string> := [
    "gemini-1.5-pro-002",
    "gemini-2.0-pro-exp-02-05",
    "gemini-2.0-flash",
    "gemini-2.0-flash-thinking-exp-01-21"
  ]

  /** Stand-in for the instruction prose that opens the discovery template. */
  const DiscoveryInstructions: string := "<discovery instructions>\n"

  /** The discovery prompt: the instructions, then the whole corpus between corpus tags. */
  function DiscoveryPrompt(corpus: string): (p: string)
    ensures Contains(p, corpus)
  {
    var head := DiscoveryInstructions + "<corpus>";
    var p := head + corpus + "</corpus>\n";
    assert p[|head|..|head| + |corpus|] == corpus;
    assert OccursAt(p, corpus, |head|);
    ContainsIff(p, corpus);
    p
  }

  /** One request and one file per model, the reply of request `first + j` going to model `j`'s file. */
  function Sweep(corpusFile: string, prompt: string, models: seq<string>, first: nat, backend: Backend): (effects: seq<Effect>)
    ensures |effects| == 2 * |models|
    ensures forall j :: 0 <= j < |models| ==>
              && effects[2 * j] == Complete(prompt, models[j])
              && effects[2 * j + 1] == Write(TopicsName(corpusFile, models[j]), Plain(backend(first + j, prompt, models[j])))
    decreases |models|
  {
    if models == [] then []
    else
      [ Complete(prompt, models[0]),
        Write(TopicsName(corpusFile, models[0]), Plain(backend(first, prompt, models[0]))) ]
      + Sweep(corpusFile, prompt, models[1..], first + 1, backend)
  }

  /** `topic_modeling(corpus_file)` */
  function TopicModeling(corpusFile: string, table: Table, backend: Backend): Run<string>
  {
    match LoadCorpus(table)
    case Failure(e) => Raised([], e)
    case Success(corpus) =>
      var prompt := DiscoveryPrompt(DiscoveryCorpus(corpus));
      var last := |DiscoveryModels| - 1;
      Returned([Write(PromptName(corpusFile), Plain(prompt))] + Sweep(corpusFile, prompt, DiscoveryModels, 0, backend),
               backend(last, prompt, DiscoveryModels[last]))
  }

  /**
   * A discovery run saves the prompt, then for each of the four models asks
   * for a completion and saves the reply in that model's own file, and
   * returns the reply of the last model, which is also its last file.
   */
  lemma TopicModelingRun(base: string, table: Table, backend: Backend)
    requires DescriptionColumn in table
    requires !Contains(base, CsvSuffix)
    ensures
      var corpusFile := base + CsvSuffix;
      var run := TopicModeling(corpusFile, table, backend);
      var prompt := DiscoveryPrompt(DiscoveryCorpus(LoadCorpus(table).value));
      && run.Returned?
      && |run.effects| == 9
      && run.effects[0] == Write(base + "_prompt.txt", Plain(prompt))
      && (forall j :: 0 <= j < 4 ==>
            && run.effects[1 + 2 * j] == Complete(prompt, DiscoveryModels[j])
            && run.effects[2 + 2 * j]
               == Write(base + "_topics_" + Sanitize(DiscoveryModels[j]) + ".txt",
                        Plain(backend(j, prompt, DiscoveryModels[j]))))
      && run.effects[8] == Write(TopicsName(corpusFile, DiscoveryModels[3]), Plain(run.value))
      && (forall j, j' :: 0 <= j < j' < 4 ==>
            TopicsName(corpusFile, DiscoveryModels[j]) != TopicsName(corpusFile, DiscoveryModels[j']))
  {
    var corpusFile := base + CsvSuffix;
    var run := TopicModeling(corpusFile, table, backend);
    var prompt := DiscoveryPrompt(DiscoveryCorpus(LoadCorpus(table).value));
    var sweep := Sweep(corpusFile, prompt, DiscoveryModels, 0, backend);
    assert run.effects == [Write(PromptName(corpusFile), Plain(prompt))] + sweep;
    CsvPathNames(base, "");
    forall j | 0 <= j < 4
      ensures run.effects[1 + 2 * j] == Complete(prompt, DiscoveryModels[j])
      ensures run.effects[2 + 2 * j]
              == Write(base + "_topics_" + Sanitize(DiscoveryModels[j]) + ".txt",
                       Plain(backend(j, prompt, DiscoveryModels[j])))
    {
      CsvPathNames(base, DiscoveryModels[j]);
      assert run.effects[1 + 2 * j] == sweep[2 * j];
      assert run.effects[2 + 2 * j] == sweep[2 * j + 1];
    }
    forall j, j' | 0 <= j < j' < 4
      ensures TopicsName(corpusFile, DiscoveryModels[j]) != TopicsName(corpusFile, DiscoveryModels[j'])
    {
      TopicsNamesDiffer(base, DiscoveryModels[j], DiscoveryModels[j']);
    }
  }
}

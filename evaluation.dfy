/** The evaluation script `main.py`: the item-title dictionary, the prompt
    and answer text of a test record, and the loop that shuffles the first
    twenty records' candidates together with their target and hands the
    0/1 relevance vector of each shuffled list to the NDCG accumulator. */
module Evaluation {
  import opened Wrappers
  import opened PyStr
  import opened PyList
  import opened PyRandom
  import opened SeqBuilder

  /** An entry of the item table: its id and its title. */
  datatype Item = Item(iid: string, title: string)

  /** `iid_dict[key]` on a missing key (`None` for the missing target of a
      train record). */
  datatype LookupError = MissingKey(key: Option<string>)

  /** `{i['iid']: i['title'] for i in item}`: a later entry for the same id
      overwrites an earlier one. */
  function TitleIndex(items: seq<Item>): (d: map<string, string>)
    ensures forall k :: k in d <==> exists i :: 0 <= i < |items| && items[i].iid == k
  {
    if items == [] then map[]
    else
      var last := items[|items| - 1];
      var d := TitleIndex(items[..|items| - 1]);
      assert forall i :: 0 <= i < |items| - 1 ==> items[..|items| - 1][i] == items[i];
      d[last.iid := last.title]
  }

  /** Each id maps to the title of its last entry in the item table. */
  lemma {:induction false} TitleIndexLast(items: seq<Item>, i: nat)
    requires i < |items|
    requires forall j :: i < j < |items| ==> items[j].iid != items[i].iid
    ensures items[i].iid in TitleIndex(items)
    ensures TitleIndex(items)[items[i].iid] == items[i].title
  {
    var n := |items|;
    if i < n - 1 {
      var front := items[..n - 1];
      forall j | i < j < |front| ensures front[j].iid != front[i].iid {
        assert front[j] == items[j];
      }
      TitleIndexLast(front, i);
      assert front[i] == items[i];
    }
  }

  /** `[iid_dict[iid] for iid in ids]`, failing at the first missing id. */
  function Titles(dict: map<string, string>, ids: seq<string>): (r: Result<seq<string>, LookupError>)
    ensures r.Success? <==> forall i :: 0 <= i < |ids| ==> ids[i] in dict
    ensures r.Success? ==> |r.value| == |ids| && forall i :: 0 <= i < |ids| ==> ids[i] in dict && r.value[i] == dict[ids[i]]
    ensures r.Failure? ==>
      && r.error.key.Some?
      && r.error.key.value in ids
      && r.error.key.value !in dict
      && forall i :: 0 <= i < FirstIndex(ids, r.error.key.value) ==> ids[i] in dict
  {
    if ids == [] then Success([])
    else if ids[0] !in dict then Failure(MissingKey(Some(ids[0])))
    else
      match Titles(dict, ids[1..])
      case Failure(e) =>
        assert forall i :: 0 <= i < |ids| - 1 ==> ids[1..][i] == ids[i + 1];
        Failure(e)
      case Success(rest) => Success([dict[ids[0]]] + rest)
  }

  /** `prompt + '; '.join([iid_dict[iid] for iid in ids])`. */
  function InputText(prompt: string, dict: map<string, string>, ids: seq<string>): Result<string, LookupError>
  {
    match Titles(dict, ids)
    case Failure(e) => Failure(e)
    case Success(titles) => Success(prompt + Join(titles, "; "))
  }

  /** The input text exists exactly when every id of the window has a
      title; it then starts with the prompt, and otherwise the error is the
      first id without a title. */
  lemma InputTextSpec(prompt: string, dict: map<string, string>, ids: seq<string>)
    ensures InputText(prompt, dict, ids).Success? <==> forall k :: 0 <= k < |ids| ==> ids[k] in dict
    ensures InputText(prompt, dict, ids).Success? ==> prompt <= InputText(prompt, dict, ids).value
    ensures InputText(prompt, dict, ids).Failure? ==>
      && InputText(prompt, dict, ids).error.key.Some?
      && var missing := InputText(prompt, dict, ids).error.key.value;
        && missing in ids && missing !in dict
        && forall k :: 0 <= k < FirstIndex(ids, missing) ==> ids[k] in dict
  {
    if InputText(prompt, dict, ids).Success? {
      var text := InputText(prompt, dict, ids).value;
      assert text == prompt + Join(Titles(dict, ids).value, "; ");
    }
  }

  /** After the prompt come the titles of the window in window order, two
      consecutive titles separated by "; ". */
  lemma InputTextSeparator(prompt: string, dict: map<string, string>, ids: seq<string>, i: nat)
    requires i + 1 < |ids|
    requires forall k :: 0 <= k < |ids| ==> ids[k] in dict
    ensures InputText(prompt, dict, ids).Success?
    ensures InputText(prompt, dict, ids).value ==
      prompt + Join(Titles(dict, ids).value[..i + 1], "; ") + "; " + Join(Titles(dict, ids).value[i + 1..], "; ")
  {
    var t := Titles(dict, ids).value;
    assert t == t[..i + 1] + t[i + 1..];
    JoinAppend(t[..i + 1], t[i + 1..], "; ");
  }

  /** `iid_dict[examples['target']]`. */
  function AnswerText(dict: map<string, string>, target: Option<string>): (r: Result<string, LookupError>)
    ensures r.Success? <==> target.Some? && target.value in dict
    ensures r.Success? ==> r.value == dict[target.value]
    ensures r.Failure? ==> r.error == MissingKey(target)
  {
    match target
    case None => Failure(MissingKey(None))
    case Some(t) => if t in dict then Success(dict[t]) else Failure(MissingKey(Some(t)))
  }

  /** A record of the loaded split as `preprocess_function` sees it: the
      generated fields, and the `input` and `answer` it adds. */
  class ProcessedRow {
    const example: Example
    var input: Option<string>
    var answer: Option<string>

    constructor (example: Example)
      ensures this.example == example && input == None && answer == None
    {
      this.example := example;
      input := None;
      answer := None;
    }

    /** `preprocess_function(examples)`: first `input`, then `answer`; a
        missing title stops it with a lookup error, after `input` is set
        when only the answer is missing. */
    method Preprocess(prompt: string, dict: map<string, string>) returns (error: Option<LookupError>)
      modifies this
      ensures var inp := InputText(prompt, dict, example.sequence);
        var ans := AnswerText(dict, example.target);
        && (inp.Failure? ==> error == Some(inp.error) && input == old(input) && answer == old(answer))
        && (inp.Success? && ans.Failure? ==> error == Some(ans.error) && input == Some(inp.value) && answer == old(answer))
        && (inp.Success? && ans.Success? ==> error == None && input == Some(inp.value) && answer == Some(ans.value))
    {
      var inp := InputText(prompt, dict, example.sequence);
      if inp.Failure? {
        return Some(inp.error);
      }
      input := Some(inp.value);
      var ans := AnswerText(dict, example.target);
      if ans.Failure? {
        return Some(ans.error);
      }
      answer := Some(ans.value);
      error := None;
    }
  }

  /** `processed_datasets[i]['candidates'] + [processed_datasets[i]['target']]`. */
  function RankingList(ex: Example): (r: seq<Option<string>>)
    ensures |r| == |ex.candidates| + 1
    ensures forall k :: 0 <= k < |ex.candidates| ==> r[k] == Some(ex.candidates[k])
    ensures r[|ex.candidates|] == ex.target
  {
    Lift(ex.candidates) + [ex.target]
  }

  /** The candidates as entries of a list that may also hold `None`. */
  function Lift(c: seq<string>): (r: seq<Option<string>>)
    ensures |r| == |c|
    ensures forall k :: 0 <= k < |c| ==> r[k] == Some(c[k])
  {
    if c == [] then [] else Lift(c[..|c| - 1]) + [Some(c[|c| - 1])]
  }

  /** `[1 if j == target else 0 for j in ranking]`. */
  function Relevance(ranking: seq<Option<string>>, target: Option<string>): seq<int>
  {
    seq(|ranking|, k requires 0 <= k < |ranking| => if ranking[k] == target then 1 else 0)
  }

  /** The number of ones in a vector. */
  function Ones(v: seq<int>): nat
  {
    if v == [] then 0 else (if v[|v| - 1] == 1 then 1 else 0) + Ones(v[..|v| - 1])
  }

  /** The relevance vector is as long as the list, holds only 0 and 1, and
      has a 1 exactly where the list holds the target; so it has as many
      ones as the list has copies of the target. */
  lemma {:induction false} RelevanceSpec(ranking: seq<Option<string>>, target: Option<string>)
    ensures |Relevance(ranking, target)| == |ranking|
    ensures forall k :: 0 <= k < |ranking| ==> Relevance(ranking, target)[k] in {0, 1}
    ensures forall k :: 0 <= k < |ranking| ==> (Relevance(ranking, target)[k] == 1 <==> ranking[k] == target)
    ensures Ones(Relevance(ranking, target)) == multiset(ranking)[target]
  {
    if ranking != [] {
      var front := ranking[..|ranking| - 1];
      RelevanceSpec(front, target);
      assert Relevance(ranking, target)[..|ranking| - 1] == Relevance(front, target);
      assert ranking == front + [ranking[|ranking| - 1]];
    }
  }

  /** How often the target occurs in the candidates. */
  function TargetCopies(ex: Example): nat
  {
    if ex.target.Some? then multiset(ex.candidates)[ex.target.value] else 0
  }

  lemma {:induction false} RankingCopies(ex: Example)
    ensures multiset(RankingList(ex))[ex.target] == 1 + TargetCopies(ex)
  {
    var lifted := Lift(ex.candidates);
    assert multiset(lifted + [ex.target]) == multiset(lifted) + multiset{ex.target};
    LiftedCopies(ex.candidates, ex.target);
  }

  lemma {:induction false} LiftedCopies(c: seq<string>, target: Option<string>)
    ensures multiset(Lift(c))[target] == if target.Some? then multiset(c)[target.value] else 0
  {
    if c != [] {
      var front, last := c[..|c| - 1], c[|c| - 1];
      LiftedCopies(front, target);
      assert Lift(c) == Lift(front) + [Some(last)];
      assert multiset(Lift(c)) == multiset(Lift(front)) + multiset{Some(last)};
      assert c == front + [last];
      assert multiset(c) == multiset(front) + multiset{last};
    }
  }

  /** The relevance vector of a shuffled ranking list: one entry per
      candidate plus one, and one 1 for the target itself plus one for each
      copy of it among the candidates. */
  lemma ShuffledRelevance(ex: Example, draw: nat -> nat, pos: nat)
    ensures var v := Relevance(Shuffled(RankingList(ex), draw, pos), ex.target);
      && |v| == |ex.candidates| + 1
      && Ones(v) == 1 + TargetCopies(ex)
  {
    var list := RankingList(ex);
    ShufflePermutes(list, draw, pos);
    RelevanceSpec(Shuffled(list, draw, pos), ex.target);
    RankingCopies(ex);
  }

  /** When no candidate is the target, the shuffled list has the target in
      exactly one place, and the relevance vector has its only 1 there. */
  lemma SingleRelevant(ex: Example, draw: nat -> nat, pos: nat)
    requires forall k :: 0 <= k < |ex.candidates| ==> ex.target != Some(ex.candidates[k])
    ensures var list := Shuffled(RankingList(ex), draw, pos);
      var v := Relevance(list, ex.target);
      && ex.target in list
      && Ones(v) == 1
      && v[FirstIndex(list, ex.target)] == 1
      && forall k :: 0 <= k < |v| && k != FirstIndex(list, ex.target) ==> v[k] == 0
  {
    var list := Shuffled(RankingList(ex), draw, pos);
    ShuffledRelevance(ex, draw, pos);
    RelevanceSpec(list, ex.target);
    if ex.target.Some? {
      assert ex.target.value !in multiset(ex.candidates);
    }
    ShufflePermutes(RankingList(ex), draw, pos);
    RankingCopies(ex);
    assert ex.target in multiset(list);
    var v := Relevance(list, ex.target);
    var f := FirstIndex(list, ex.target);
    forall k | 0 <= k < |v| && k != f ensures v[k] == 0 {
      if v[k] != 0 {
        TwoCopies(list, f, k);
      }
    }
  }

  lemma TwoCopies<T>(s: seq<T>, i: nat, j: nat)
    requires i < |s| && j < |s| && i != j && s[i] == s[j]
    ensures multiset(s)[s[i]] >= 2
  {
    var x := s[i];
    var a, b := if i < j then i else j, if i < j then j else i;
    assert s[..b][a] == x;
    assert s[b..][0] == x;
    assert x in multiset(s[..b]) && x in multiset(s[b..]);
    assert s == s[..b] + s[b..];
  }

  /** For every record the sequence builder yields, the shuffled ranking
      list of eleven entries has exactly one relevant position: where the
      target landed. */
  lemma BuilderRelevance(rows: seq<Ratings.Row>, split: Split, draw: nat -> nat, pos: nat, i: nat, shuffleDraw: nat -> nat, shufflePos: nat)
    requires i < |Build(rows, split, draw, pos).records|
    ensures var ex := Build(rows, split, draw, pos).records[i].example;
      var list := Shuffled(RankingList(ex), shuffleDraw, shufflePos);
      var v := Relevance(list, ex.target);
      && |v| == NumCandidates + 1
      && ex.target in list
      && Ones(v) == 1
      && v[FirstIndex(list, ex.target)] == 1
      && forall k :: 0 <= k < |v| && k != FirstIndex(list, ex.target) ==> v[k] == 0
  {
    var ex := Build(rows, split, draw, pos).records[i].example;
    BuildRecord(rows, split, draw, pos, i);
    ShuffledRelevance(ex, shuffleDraw, shufflePos);
    SingleRelevant(ex, shuffleDraw, shufflePos);
  }

  /** The NDCG metric's state: the predictions added so far. */
  class NdcgAccumulator {
    var predictions: seq<seq<int>>

    constructor ()
      ensures predictions == []
    {
      predictions := [];
    }

    /** `ndcg.add(prediction=prediction)`. */
    method Add(prediction: seq<int>)
      modifies this
      ensures predictions == old(predictions) + [prediction]
    {
      predictions := predictions + [prediction];
    }
  }

  /** The number of records the script scores. */
  const Evaluated: nat := 20

  /** The draws one shuffle of a record's ranking list takes. */
  function RecordDraws(ex: Example): nat
  {
    ShuffleDraws(|ex.candidates| + 1)
  }

  /** The draws the shuffles of the first `n` records take. */
  function Offset(records: seq<Example>, n: nat): nat
    requires n <= |records|
  {
    if n == 0 then 0 else Offset(records, n - 1) + RecordDraws(records[n - 1])
  }

  /** The relevance vector of a record's ranking list shuffled from
      position `at` of the stream. */
  function VectorOf(ex: Example, draw: nat -> nat, at: nat): seq<int>
  {
    Relevance(Shuffled(RankingList(ex), draw, at), ex.target)
  }

  /** `VectorOf` for a fixed stream, as a function of the record and the
      position. */
  function ScoreOf(draw: nat -> nat): (Example, nat) -> seq<int>
  {
    (ex: Example, at: nat) => VectorOf(ex, draw, at)
  }

  /** The vectors `score` gives the first `n` records, in order, each from
      the position the records before it leave the stream at. */
  function Scored(score: (Example, nat) -> seq<int>, records: seq<Example>, n: nat, pos: nat): (vs: seq<seq<int>>)
    requires n <= |records|
    ensures |vs| == n
  {
    if n == 0 then [] else Scored(score, records, n - 1, pos) + [score(records[n - 1], pos + Offset(records, n - 1))]
  }

  /** The relevance vectors of the first `n` records, in order, each list
      shuffled from where the shuffles before it left the stream. */
  function Vectors(records: seq<Example>, n: nat, draw: nat -> nat, pos: nat): seq<seq<int>>
    requires n <= |records|
  {
    Scored(ScoreOf(draw), records, n, pos)
  }

  lemma {:induction false} ScoredAt(score: (Example, nat) -> seq<int>, records: seq<Example>, n: nat, pos: nat, k: nat)
    requires k < n <= |records|
    ensures Scored(score, records, n, pos)[k] == score(records[k], pos + Offset(records, k))
  {
    if k < n - 1 {
      ScoredAt(score, records, n - 1, pos, k);
    }
  }

  /** Vector `k` belongs to record `k`, its list shuffled after the draws
      of the records before it. */
  lemma VectorAt(records: seq<Example>, n: nat, draw: nat -> nat, pos: nat, k: nat)
    requires k < n <= |records|
    ensures |Vectors(records, n, draw, pos)| == n
    ensures Vectors(records, n, draw, pos)[k] == VectorOf(records[k], draw, pos + Offset(records, k))
  {
    ScoredAt(ScoreOf(draw), records, n, pos, k);
  }

  /** Each vector is as long as its record's ranking list and has one 1 for
      the target plus one per copy of it among the candidates. */
  lemma VectorsSpec(records: seq<Example>, n: nat, draw: nat -> nat, pos: nat, k: nat)
    requires k < n <= |records|
    ensures |Vectors(records, n, draw, pos)[k]| == |records[k].candidates| + 1
    ensures Ones(Vectors(records, n, draw, pos)[k]) == 1 + TargetCopies(records[k])
  {
    VectorAt(records, n, draw, pos, k);
    VectorOfSpec(Vectors(records, n, draw, pos)[k], records[k], draw, pos + Offset(records, k));
  }

  /** `ShuffledRelevance` for a vector given by name; the extra parameter
      helps the solver match the term at the call site. */
  lemma VectorOfSpec(v: seq<int>, ex: Example, draw: nat -> nat, at: nat)
    requires v == VectorOf(ex, draw, at)
    ensures |v| == |ex.candidates| + 1
    ensures Ones(v) == 1 + TargetCopies(ex)
  {
    ShuffledRelevance(ex, draw, at);
  }

  /** The records of a generated split as the evaluation is taken to load
      them: the examples, in generation order, without their keys (an
      assumption about `load_dataset`, not a proved fact). */
  function Examples(records: seq<Keyed>): (exs: seq<Example>)
    ensures |exs| == |records|
    ensures forall i :: 0 <= i < |records| ==> exs[i] == records[i].example
  {
    seq(|records|, i requires 0 <= i < |records| => records[i].example)
  }

  /** Over the records the sequence builder generates, every vector the
      loop adds has eleven entries and exactly one 1. */
  lemma BuilderVectors(rows: seq<Ratings.Row>, split: Split, draw: nat -> nat, pos: nat,
                       n: nat, shuffleDraw: nat -> nat, shufflePos: nat, k: nat)
    requires k < n <= |Build(rows, split, draw, pos).records|
    ensures var vs := Vectors(Examples(Build(rows, split, draw, pos).records), n, shuffleDraw, shufflePos);
      && |vs| == n
      && |vs[k]| == NumCandidates + 1
      && Ones(vs[k]) == 1
  {
    var records := Examples(Build(rows, split, draw, pos).records);
    var ex := records[k];
    BuildRecord(rows, split, draw, pos, k);
    if ex.target.Some? {
      assert ex.target.value !in multiset(ex.candidates);
    }
    VectorAt(records, n, shuffleDraw, shufflePos, k);
    VectorsSpec(records, n, shuffleDraw, shufflePos, k);
  }

  /** One turn of the loop: shuffle the record's ranking list in place with
      the stream and add its relevance vector to the accumulator. */
  method ScoreRecord(ex: Example, rng: RandomStream, acc: NdcgAccumulator) returns (prediction: seq<int>)
    modifies rng, acc
    ensures prediction == ScoreOf(rng.draw)(ex, old(rng.pos))
    ensures acc.predictions == old(acc.predictions) + [prediction]
    ensures rng.pos == old(rng.pos) + RecordDraws(ex)
  {
    var ranking := RankingList(ex);
    var a := new Option<string>[|ranking|](k requires 0 <= k < |ranking| => ranking[k]);
    assert a[..] == ranking;
    rng.Shuffle(a);
    prediction := Relevance(a[..], ex.target);
    acc.Add(prediction);
  }

  /** One more record adds its own vector (a single unfolding of `Scored`,
      stated separately to keep the loop's proof small). */
  lemma ScoredSnoc(before: seq<seq<int>>, score: (Example, nat) -> seq<int>, records: seq<Example>, i: nat, pos: nat, at: nat, v: seq<int>)
    requires i < |records|
    requires at == pos + Offset(records, i)
    requires v == score(records[i], at)
    ensures before + Scored(score, records, i + 1, pos) == before + Scored(score, records, i, pos) + [v]
  {
    assert before + (Scored(score, records, i, pos) + [v]) == before + Scored(score, records, i, pos) + [v];
  }

  /** The loop `for i in range(20)` of `main.py`: shuffle the ranking list of
      record `i` in place, build its relevance vector and add it to the
      accumulator. It adds one vector per record, in index order, and stops
      with the index error of `processed_datasets[i]` when there are fewer
      than twenty records. */
  method EvaluateFirst(records: seq<Example>, rng: RandomStream, acc: NdcgAccumulator) returns (error: Option<nat>)
    modifies rng, acc
    ensures var n := if |records| < Evaluated then |records| else Evaluated;
      && acc.predictions == old(acc.predictions) + Vectors(records, n, rng.draw, old(rng.pos))
      && rng.pos == old(rng.pos) + Offset(records, n)
      && error == (if |records| < Evaluated then Some(|records|) else None)
  {
    ghost var start := rng.pos;
    ghost var before := acc.predictions;
    ghost var score := ScoreOf(rng.draw);
    for i: nat := 0 to Evaluated
      invariant i <= |records|
      invariant score == ScoreOf(rng.draw)
      invariant acc.predictions == before + Scored(score, records, i, start)
      invariant rng.pos == start + Offset(records, i)
    {
      if i >= |records| {
        return Some(i);
      }
      ghost var at := rng.pos;
      var prediction := ScoreRecord(records[i], rng, acc);
      ScoredSnoc(before, score, records, i, start, at, prediction);
    }
    error := None;
  }
}

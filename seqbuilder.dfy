/** `ML100kSeq._generate_examples` of `datasets/ml100k_seq.py`: one record per
    user of the ratings table, holding a window of the user's timestamp-ordered
    history, the held-out target of the split, and ten negative candidates
    drawn from the items the user never rated. One random stream is shared by
    all users, and every user takes a draw whatever the split. */
module SeqBuilder {
  import opened Wrappers
  import opened PyList
  import opened PyRandom
  import opened Ratings

  /** The number of negative candidates drawn for each user. */
  const NumCandidates: nat := 10

  datatype Split = Train | Validation | Test

  /** A generated record: `uid`, `seq` (here `sequence`, `seq` being a
      keyword), `target` (None for train) and `candidates`. */
  datatype Example = Example(uid: string, sequence: seq<string>, target: Option<string>, candidates: seq<string>)

  /** A record with the key it is yielded under. */
  datatype Keyed = Keyed(key: string, example: Example)

  datatype BuildError =
    | BadTable(table: TableError)
      /** `random.sample` refuses a pool smaller than the sample. */
    | PoolExhausted(uid: string, poolSize: nat)
      /** `sub_iid_list[index]` on a history that is too short. */
    | IndexOutOfRange(uid: string, index: int)

  /** What a pass of the generator produces: the records yielded before it
      stopped, the error that stopped it (if any), and where the random
      stream stands afterwards. */
  datatype Generated = Generated(records: seq<Keyed>, error: Option<BuildError>, pos: nat)

  /** `[item for item in iid_list if item not in sub_iid_list]`. */
  function Pool(universe: seq<string>, hist: seq<string>): seq<string>
  {
    Without(universe, hist)
  }

  /** The record of one user for a split, from the user's history and the
      candidates drawn for the user. */
  function MakeExample(split: Split, uid: string, hist: seq<string>, candidates: seq<string>): Result<Example, BuildError>
  {
    match split
    case Train =>
      Success(Example(uid, Slice(hist, -10, -2), None, candidates))
    case Validation =>
      (match Index(hist, -2)
       case None => Failure(IndexOutOfRange(uid, -2))
       case Some(t) => Success(Example(uid, Slice(hist, -10, -2), Some(t), candidates)))
    case Test =>
      (match Index(hist, -1)
       case None => Failure(IndexOutOfRange(uid, -1))
       case Some(t) => Success(Example(uid, Slice(hist, -10, -1), Some(t), candidates)))
  }

  /** One turn of the loop over users: sort, draw, then window. */
  function Step(rows: seq<Row>, universe: seq<string>, uid: string, split: Split, draw: nat -> nat, pos: nat): Result<Example, BuildError>
  {
    var hist := History(rows, uid);
    var pool := Pool(universe, hist);
    match Drawn(pool, NumCandidates, draw, pos)
    case None => Failure(PoolExhausted(uid, |pool|))
    case Some(candidates) => MakeExample(split, uid, hist, candidates)
  }

  /** The per-user step of one split over one table, as a function of the
      user and the stream's position. */
  function StepOf(rows: seq<Row>, universe: seq<string>, split: Split, draw: nat -> nat): (string, nat) -> Result<Example, BuildError>
  {
    (uid: string, pos: nat) => Step(rows, universe, uid, split, draw, pos)
  }

  /** The loop over `users` with the stream at draw `pos`, each user taking
      `step`; a step that draws its candidates moves the stream by
      `NumCandidates`. */
  function Walk(step: (string, nat) -> Result<Example, BuildError>, users: seq<string>, pos: nat): Generated
    decreases |users|
  {
    if users == [] then Generated([], None, pos)
    else
      match step(users[0], pos)
      case Failure(e) => Generated([], Some(e), if e.PoolExhausted? then pos else pos + NumCandidates)
      case Success(ex) =>
        var rest := Walk(step, users[1..], pos + NumCandidates);
        Generated([Keyed(users[0], ex)] + rest.records, rest.error, rest.pos)
  }

  /** The file's lines after the parse loop. */
  function ParsedLines(texts: seq<string>): seq<Line>
  {
    seq(|texts|, i requires 0 <= i < |texts| => Fields(ParseLine(texts[i])))
  }

  /** The whole generator on the lines of `u.data`: build the table, take the
      item universe and the users in first-seen order, and walk the users. */
  function Generate(texts: seq<string>, split: Split, draw: nat -> nat, pos: nat): Generated
  {
    match ToRows(ParsedLines(texts))
    case Failure(e) => Generated([], Some(BadTable(e)), pos)
    case Success(rows) => Build(rows, split, draw, pos)
  }

  /** The walk over a table's users in first-seen order, with its items in
      first-seen order as the universe. */
  function Build(rows: seq<Row>, split: Split, draw: nat -> nat, pos: nat): Generated
  {
    Walk(StepOf(rows, Unique(Iids(rows)), split, draw), Unique(Uids(rows)), pos)
  }

  /** `_generate_examples(filepath, split)` on the lines `f.readlines()`
      returned, with `rng` the module-level random generator. */
  method GenerateExamples(texts: seq<string>, split: Split, rng: RandomStream) returns (records: seq<Keyed>, error: Option<BuildError>)
    modifies rng
    ensures var g := Generate(texts, split, rng.draw, old(rng.pos));
      records == g.records && error == g.error && rng.pos == g.pos
  {
    var lines := new Line[|texts|](i requires 0 <= i < |texts| => Raw(texts[i]));
    ParseLines(lines);
    assert lines[..] == ParsedLines(texts);
    var table := ToRows(lines[..]);
    if table.Failure? {
      return [], Some(BadTable(table.error));
    }
    var rows := table.value;
    records, error := WalkUsers(rows, Unique(Iids(rows)), Unique(Uids(rows)), split, rng);
  }

  /** `goal` is what the walk over `users` gives once `records` have been
      yielded and the walk from index `u` on, with the stream at `pos`,
      gives the rest. */
  ghost predicate Walked(step: (string, nat) -> Result<Example, BuildError>, users: seq<string>,
                         goal: Generated, u: nat, records: seq<Keyed>, pos: nat)
    requires u <= |users|
  {
    var g := Walk(step, users[u..], pos);
    goal == Generated(records + g.records, g.error, g.pos)
  }

  /** One turn of the loop keeps `Walked`, or ends the walk on a failed step. */
  lemma WalkedStep(step: (string, nat) -> Result<Example, BuildError>, users: seq<string>,
                   goal: Generated, u: nat, records: seq<Keyed>, pos: nat)
    requires u < |users|
    requires Walked(step, users, goal, u, records, pos)
    ensures var st := step(users[u], pos);
      && (st.Failure? ==> goal == Generated(records, Some(st.error), if st.error.PoolExhausted? then pos else pos + NumCandidates))
      && (st.Success? ==> Walked(step, users, goal, u + 1, records + [Keyed(users[u], st.value)], pos + NumCandidates))
  {
    assert users[u..][0] == users[u];
    assert users[u..][1..] == users[u + 1..];
    var st := step(users[u], pos);
    if st.Success? {
      var rest := Walk(step, users[u + 1..], pos + NumCandidates);
      assert records + [Keyed(users[u], st.value)] + rest.records == records + ([Keyed(users[u], st.value)] + rest.records);
    } else {
      assert records + [] == records;
    }
  }

  lemma WalkedEnd(step: (string, nat) -> Result<Example, BuildError>, users: seq<string>,
                  goal: Generated, records: seq<Keyed>, pos: nat)
    requires Walked(step, users, goal, |users|, records, pos)
    ensures goal == Generated(records, None, pos)
  {
    assert users[|users|..] == [];
    assert records + [] == records;
  }

  /** `for uid in df["uid"].unique(): ...`: one record per user until a draw
      or a window fails. */
  method WalkUsers(rows: seq<Row>, iidList: seq<string>, users: seq<string>, split: Split, rng: RandomStream)
    returns (records: seq<Keyed>, error: Option<BuildError>)
    modifies rng
    ensures var g := Walk(StepOf(rows, iidList, split, rng.draw), users, old(rng.pos));
      records == g.records && error == g.error && rng.pos == g.pos
  {
    records, error := [], None;
    ghost var step := StepOf(rows, iidList, split, rng.draw);
    ghost var goal := Walk(step, users, rng.pos);
    assert users[0..] == users;
    assert [] + goal.records == goal.records;
    var u := 0;
    while u < |users|
      invariant 0 <= u <= |users|
      invariant Walked(step, users, goal, u, records, rng.pos)
    {
      var uid := users[u];
      ghost var p0 := rng.pos;
      var example := UserRecord(rows, iidList, uid, split, rng);
      WalkedStep(step, users, goal, u, records, p0);
      if example.Failure? {
        return records, Some(example.error);
      }
      assert rng.pos == p0 + NumCandidates;
      records := records + [Keyed(uid, example.value)];
      u := u + 1;
    }
    WalkedEnd(step, users, goal, records, rng.pos);
  }

  /** The body of the loop for one user: sort the user's rows, draw the
      candidates from the unrated items, and cut the split's window. The
      result is stated both against `Step` and against the lambda `StepOf`
      that the walk applies, to spare the caller the unfolding. */
  method UserRecord(rows: seq<Row>, iidList: seq<string>, uid: string, split: Split, rng: RandomStream)
    returns (example: Result<Example, BuildError>)
    modifies rng
    ensures example == Step(rows, iidList, uid, split, rng.draw, old(rng.pos))
    ensures example == StepOf(rows, iidList, split, rng.draw)(uid, old(rng.pos))
    ensures example.Failure? && example.error.PoolExhausted? ==> rng.pos == old(rng.pos)
    ensures !(example.Failure? && example.error.PoolExhausted?) ==> rng.pos == old(rng.pos) + NumCandidates
  {
    var hist := History(rows, uid);
    var pool := Pool(iidList, hist);
    var candidates := rng.Sample(pool, NumCandidates);
    if candidates.None? {
      return Failure(PoolExhausted(uid, |pool|));
    }
    example := MakeExample(split, uid, hist, candidates.value);
    assert example.Failure? ==> example.error.IndexOutOfRange?;
  }

  /** What the walk yields: records for a prefix of `users`, in order and
      under their own uid, each the successful step of its user with the
      stream `NumCandidates` draws further on per earlier user; the walk
      stops at the first failed step and nowhere else, and a refused draw
      leaves the stream where it was. */
  lemma {:induction false} WalkShape(step: (string, nat) -> Result<Example, BuildError>, users: seq<string>, pos: nat)
    ensures var g := Walk(step, users, pos);
      && |g.records| <= |users|
      && (forall i :: 0 <= i < |g.records| ==>
            g.records[i].key == users[i] && step(users[i], pos + i * NumCandidates) == Success(g.records[i].example))
      && (g.error.None? <==> |g.records| == |users|)
      && (g.error.Some? ==> step(users[|g.records|], pos + |g.records| * NumCandidates) == Failure(g.error.value))
      && g.pos == pos + |g.records| * NumCandidates + (if g.error.Some? && !g.error.value.PoolExhausted? then NumCandidates else 0)
    decreases |users|
  {
    if users != [] && step(users[0], pos).Success? {
      var ex := step(users[0], pos).value;
      var rest := Walk(step, users[1..], pos + NumCandidates);
      WalkShape(step, users[1..], pos + NumCandidates);
      var g := Walk(step, users, pos);
      assert g == Generated([Keyed(users[0], ex)] + rest.records, rest.error, rest.pos);
      forall i | 0 < i < |g.records|
        ensures g.records[i].key == users[i] && step(users[i], pos + i * NumCandidates) == Success(g.records[i].example)
      {
        assert g.records[i] == rest.records[i - 1];
        assert users[i] == users[1..][i - 1];
        assert pos + i * NumCandidates == pos + NumCandidates + (i - 1) * NumCandidates;
      }
      assert |g.records| == |rest.records| + 1;
      assert pos + |g.records| * NumCandidates == pos + NumCandidates + |rest.records| * NumCandidates;
      if g.error.Some? {
        assert users[|g.records|] == users[1..][|rest.records|];
      }
    }
  }

  /** The `i`-th record of a walk, from `WalkShape`. */
  lemma WalkAt(step: (string, nat) -> Result<Example, BuildError>, users: seq<string>, pos: nat, i: nat)
    requires i < |Walk(step, users, pos).records|
    ensures i < |users|
    ensures Walk(step, users, pos).records[i].key == users[i]
    ensures step(users[i], pos + i * NumCandidates) == Success(Walk(step, users, pos).records[i].example)
  {
    WalkShape(step, users, pos);
  }

  /** The failed step that ends a walk, from `WalkShape`. */
  lemma WalkStop(step: (string, nat) -> Result<Example, BuildError>, users: seq<string>, pos: nat)
    returns (k: nat, at: nat, e: BuildError)
    requires Walk(step, users, pos).error.Some?
    ensures k == |Walk(step, users, pos).records| && e == Walk(step, users, pos).error.value
    ensures k < |users| && at == pos + k * NumCandidates
    ensures step(users[k], at) == Failure(e)
  {
    WalkShape(step, users, pos);
    k, e := |Walk(step, users, pos).records|, Walk(step, users, pos).error.value;
    at := pos + k * NumCandidates;
  }

  /** The step of one user: the draw is refused exactly when fewer than ten
      items are left unrated, and otherwise gives ten candidates, all from
      the universe, none rated by the user, and pairwise distinct when the
      universe is. */
  lemma StepSpec(rows: seq<Row>, universe: seq<string>, uid: string, split: Split, draw: nat -> nat, pos: nat)
    ensures var hist := History(rows, uid);
      var pool := Pool(universe, hist);
      var st := Step(rows, universe, uid, split, draw, pos);
      && ((st.Failure? && st.error.PoolExhausted?) <==> |pool| < NumCandidates)
      && (|pool| < NumCandidates ==> st == Failure(PoolExhausted(uid, |pool|)))
      && (|pool| >= NumCandidates ==> st == MakeExample(split, uid, hist, Drawn(pool, NumCandidates, draw, pos).value))
      && (st.Success? ==>
            var c := st.value.candidates;
            && st.value.uid == uid
            && |c| == NumCandidates
            && (forall i :: 0 <= i < |c| ==> c[i] in universe && c[i] !in hist)
            && (Distinct(universe) ==> Distinct(c)))
  {
    var hist := History(rows, uid);
    var pool := Pool(universe, hist);
    var st := Step(rows, universe, uid, split, draw, pos);
    DrawnSpec(pool, NumCandidates, draw, pos);
    if |pool| >= NumCandidates {
      var c := Drawn(pool, NumCandidates, draw, pos).value;
      assert st == MakeExample(split, uid, hist, c);
      MakeExampleSpec(split, uid, hist, c);
      if st.Success? {
        assert st.value.candidates == c;
        forall i | 0 <= i < |c| ensures c[i] in universe && c[i] !in hist {
          assert c[i] in pool;
        }
      }
    }
  }

  /** The windows of `hist[-10:-2]`, `hist[-2]`, `hist[-10:-1]` and
      `hist[-1]` in plain indices: an index past the front fails, a slice
      past the front is cut short. */
  lemma MakeExampleSpec(split: Split, uid: string, hist: seq<string>, candidates: seq<string>)
    ensures var r, n := MakeExample(split, uid, hist, candidates), |hist|;
      && (r.Failure? <==> (split == Validation && n < 2) || (split == Test && n < 1))
      && (r.Failure? ==> r.error == IndexOutOfRange(uid, if split == Validation then -2 else -1))
      && (split == Train ==> r == Success(Example(uid, hist[Max0(n - 10)..Max0(n - 2)], None, candidates)))
      && (split == Validation && n >= 2 ==> r == Success(Example(uid, hist[Max0(n - 10)..n - 2], Some(hist[n - 2]), candidates)))
      && (split == Test && n >= 1 ==> r == Success(Example(uid, hist[Max0(n - 10)..n - 1], Some(hist[n - 1]), candidates)))
  {
    NegativeSlice(hist, 10, 2);
    NegativeSlice(hist, 10, 1);
  }

  /** Window lengths: at most eight items before the validation target and
      at most nine before the test target, exactly that many once the
      history has ten items. */
  lemma WindowLengths(split: Split, uid: string, hist: seq<string>, candidates: seq<string>)
    ensures var r, n := MakeExample(split, uid, hist, candidates), |hist|;
      && (r.Success? && split != Test ==> |r.value.sequence| == Max0(n - 2) - Max0(n - 10))
      && (r.Success? && split == Test ==> |r.value.sequence| == Max0(n - 1) - Max0(n - 10))
      && (r.Success? && n >= 10 ==> |r.value.sequence| == if split == Test then 9 else 8)
  {
    MakeExampleSpec(split, uid, hist, candidates);
  }

  /** The three splits cut one history consistently: train and validation
      share their window; the test window is the validation window followed
      by the validation target; and the test window followed by the test
      target is the last ten items. */
  lemma WindowsNest(uid: string, hist: seq<string>, candidates: seq<string>)
    requires |hist| >= 2
    ensures var train := MakeExample(Train, uid, hist, candidates).value;
      var valid := MakeExample(Validation, uid, hist, candidates).value;
      var test := MakeExample(Test, uid, hist, candidates).value;
      && train.sequence == valid.sequence
      && test.sequence == valid.sequence + [valid.target.value]
      && test.sequence + [test.target.value] == hist[Max0(|hist| - 10)..]
      && (|hist| >= 10 ==> test.sequence + [test.target.value] == hist[|hist| - 10..])
  {
    var n := |hist|;
    MakeExampleSpec(Train, uid, hist, candidates);
    MakeExampleSpec(Validation, uid, hist, candidates);
    MakeExampleSpec(Test, uid, hist, candidates);
    assert hist[Max0(n - 10)..n - 1] == hist[Max0(n - 10)..n - 2] + [hist[n - 2]];
    assert hist[Max0(n - 10)..] == hist[Max0(n - 10)..n - 1] + [hist[n - 1]];
  }

  /** Every item of a window, and the target, comes from the history. */
  lemma WindowInHistory(split: Split, uid: string, hist: seq<string>, candidates: seq<string>)
    ensures var r := MakeExample(split, uid, hist, candidates);
      r.Success? ==>
        && r.value.candidates == candidates
        && (forall j :: 0 <= j < |r.value.sequence| ==> r.value.sequence[j] in hist)
        && (r.value.target.Some? ==> r.value.target.value in hist)
  {
    var n := |hist|;
    var r := MakeExample(split, uid, hist, candidates);
    MakeExampleSpec(split, uid, hist, candidates);
    if r.Success? {
      forall j | 0 <= j < |r.value.sequence| ensures r.value.sequence[j] in hist {
        assert r.value.sequence[j] == hist[Max0(n - 10) + j];
      }
    }
  }

  /** A successful step never offers an item of the window, nor the target,
      as a negative candidate, whatever the split. */
  lemma CandidatesFresh(rows: seq<Row>, universe: seq<string>, uid: string, split: Split, draw: nat -> nat, pos: nat)
    requires Step(rows, universe, uid, split, draw, pos).Success?
    ensures var ex := Step(rows, universe, uid, split, draw, pos).value;
      && (forall i, j :: 0 <= i < |ex.candidates| && 0 <= j < |ex.sequence| ==> ex.candidates[i] != ex.sequence[j])
      && (forall i :: 0 <= i < |ex.candidates| ==> ex.target != Some(ex.candidates[i]))
  {
    var hist := History(rows, uid);
    var pool := Pool(universe, hist);
    StepSpec(rows, universe, uid, split, draw, pos);
    WindowInHistory(split, uid, hist, Drawn(pool, NumCandidates, draw, pos).value);
  }

  /** The draw does not depend on the split: every split takes the same
      draws and, where it yields a record, offers the same candidates. */
  lemma CandidatesIndependentOfSplit(rows: seq<Row>, universe: seq<string>, uid: string, a: Split, b: Split, draw: nat -> nat, pos: nat)
    requires Step(rows, universe, uid, a, draw, pos).Success?
    requires Step(rows, universe, uid, b, draw, pos).Success?
    ensures Step(rows, universe, uid, a, draw, pos).value.candidates == Step(rows, universe, uid, b, draw, pos).value.candidates
  {
    var hist := History(rows, uid);
    var pool := Pool(universe, hist);
    StepSpec(rows, universe, uid, a, draw, pos);
    StepSpec(rows, universe, uid, b, draw, pos);
    MakeExampleSpec(a, uid, hist, Drawn(pool, NumCandidates, draw, pos).value);
    MakeExampleSpec(b, uid, hist, Drawn(pool, NumCandidates, draw, pos).value);
  }

  /** A successful step is labelled with its user. */
  lemma StepUid(rows: seq<Row>, universe: seq<string>, uid: string, split: Split, draw: nat -> nat, pos: nat)
    ensures Step(rows, universe, uid, split, draw, pos).Success? ==> Step(rows, universe, uid, split, draw, pos).value.uid == uid
  {
    var hist := History(rows, uid);
    var pool := Pool(universe, hist);
    if |pool| >= NumCandidates {
      MakeExampleSpec(split, uid, hist, Drawn(pool, NumCandidates, draw, pos).value);
    }
  }

  /** One record per user of the table, keyed and labelled by that user, in
      the order the users first appear; no user twice; and the generator
      stops early exactly when it reports an error. */
  lemma BuildKeys(rows: seq<Row>, split: Split, draw: nat -> nat, pos: nat)
    ensures var g, users := Build(rows, split, draw, pos), Unique(Uids(rows));
      && |g.records| <= |users|
      && (forall i :: 0 <= i < |g.records| ==> g.records[i].key == users[i] && g.records[i].example.uid == users[i])
      && (forall i, j :: 0 <= i < j < |g.records| ==> g.records[i].key != g.records[j].key)
      && (g.error.None? <==> |g.records| == |users|)
  {
    var g := Build(rows, split, draw, pos);
    var users := Unique(Uids(rows));
    WalkShape(StepOf(rows, Unique(Iids(rows)), split, draw), users, pos);
    forall i | 0 <= i < |g.records| ensures g.records[i].key == users[i] && g.records[i].example.uid == users[i] {
      BuildKey(rows, split, draw, pos, i);
    }
    forall i, j | 0 <= i < j < |g.records| ensures g.records[i].key != g.records[j].key {
      assert users[i] != users[j];
    }
  }

  /** The `i`-th record is keyed and labelled by the `i`-th user. */
  lemma BuildKey(rows: seq<Row>, split: Split, draw: nat -> nat, pos: nat, i: nat)
    requires i < |Build(rows, split, draw, pos).records|
    ensures var r, users := Build(rows, split, draw, pos).records[i], Unique(Uids(rows));
      i < |users| && r.key == users[i] && r.example.uid == users[i]
  {
    var universe := Unique(Iids(rows));
    var users := Unique(Uids(rows));
    var step := StepOf(rows, universe, split, draw);
    WalkAt(step, users, pos, i);
    var at: nat := pos + i * NumCandidates;
    assert step(users[i], at) == Step(rows, universe, users[i], split, draw, at);
    StepUid(rows, universe, users[i], split, draw, at);
  }

  /** When nothing fails, every user of the table has a record. */
  lemma BuildCovers(rows: seq<Row>, split: Split, draw: nat -> nat, pos: nat)
    requires Build(rows, split, draw, pos).error.None?
    ensures var g := Build(rows, split, draw, pos);
      forall k :: 0 <= k < |rows| ==> exists i :: 0 <= i < |g.records| && g.records[i].key == rows[k].uid
  {
    var g := Build(rows, split, draw, pos);
    var users := Unique(Uids(rows));
    BuildKeys(rows, split, draw, pos);
    forall k | 0 <= k < |rows| ensures exists i :: 0 <= i < |g.records| && g.records[i].key == rows[k].uid {
      assert Uids(rows)[k] == rows[k].uid;
      assert rows[k].uid in users;
      var i :| 0 <= i < |users| && users[i] == rows[k].uid;
      assert g.records[i].key == rows[k].uid;
    }
  }

  /** Records come in the order their users first appear in the table. */
  lemma BuildFirstSeen(rows: seq<Row>, split: Split, draw: nat -> nat, pos: nat, i: nat, j: nat)
    requires i < j < |Build(rows, split, draw, pos).records|
    ensures var g := Build(rows, split, draw, pos);
      && g.records[i].key in Uids(rows) && g.records[j].key in Uids(rows)
      && FirstIndex(Uids(rows), g.records[i].key) < FirstIndex(Uids(rows), g.records[j].key)
  {
    var users := Unique(Uids(rows));
    var step := StepOf(rows, Unique(Iids(rows)), split, draw);
    WalkAt(step, users, pos, i);
    WalkAt(step, users, pos, j);
    assert users[i] in users && users[j] in users;
    UniqueFirstSeen(Uids(rows), i, j);
  }

  /** Every record: its ten candidates are pairwise distinct items of the
      table that its user never rated, none in its window or equal to its
      target, and its window and target are those the split cuts from its
      user's history. */
  lemma BuildRecord(rows: seq<Row>, split: Split, draw: nat -> nat, pos: nat, i: nat)
    requires i < |Build(rows, split, draw, pos).records|
    ensures var ex := Build(rows, split, draw, pos).records[i].example;
      var hist := History(rows, ex.uid);
      var c := ex.candidates;
      && |c| == NumCandidates
      && Distinct(c)
      && (forall k :: 0 <= k < |c| ==> c[k] in Iids(rows) && c[k] !in hist)
      && (forall k, j :: 0 <= k < |c| && 0 <= j < |ex.sequence| ==> c[k] != ex.sequence[j])
      && (forall k :: 0 <= k < |c| ==> ex.target != Some(c[k]))
      && MakeExample(split, ex.uid, hist, c) == Success(ex)
  {
    var universe := Unique(Iids(rows));
    var users := Unique(Uids(rows));
    var ex := Build(rows, split, draw, pos).records[i].example;
    WalkAt(StepOf(rows, universe, split, draw), users, pos, i);
    StepRecord(rows, universe, users[i], split, draw, pos + i * NumCandidates, ex);
    forall k | 0 <= k < |ex.candidates| ensures ex.candidates[k] in Iids(rows) {
      assert ex.candidates[k] in universe;
    }
  }

  /** A successful step, all at once: the facts of `StepSpec`,
      `CandidatesFresh` and `WindowInHistory` about its record. */
  lemma StepRecord(rows: seq<Row>, universe: seq<string>, uid: string, split: Split, draw: nat -> nat, pos: nat, ex: Example)
    requires Distinct(universe)
    requires StepOf(rows, universe, split, draw)(uid, pos) == Success(ex)
    ensures var hist := History(rows, uid);
      var c := ex.candidates;
      && ex.uid == uid
      && |c| == NumCandidates
      && Distinct(c)
      && (forall k :: 0 <= k < |c| ==> c[k] in universe && c[k] !in hist)
      && (forall k, j :: 0 <= k < |c| && 0 <= j < |ex.sequence| ==> c[k] != ex.sequence[j])
      && (forall k :: 0 <= k < |c| ==> ex.target != Some(c[k]))
      && MakeExample(split, uid, hist, c) == Success(ex)
  {
    assert StepOf(rows, universe, split, draw)(uid, pos) == Step(rows, universe, uid, split, draw, pos);
    StepSpec(rows, universe, uid, split, draw, pos);
    CandidatesFresh(rows, universe, uid, split, draw, pos);
  }

  /** What the error that stops a user's step says about that user: either
      fewer than ten items are left unrated (and the error carries the
      user and the pool size), or the draw went through and the validation
      or test target index runs past the front of the user's history. */
  predicate FailureExplained(rows: seq<Row>, universe: seq<string>, uid: string, split: Split, e: BuildError)
  {
    var hist := History(rows, uid);
    var size := |Pool(universe, hist)|;
    match e
    case PoolExhausted(u, n) => u == uid && n == size && n < NumCandidates
    case IndexOutOfRange(u, index) =>
      && u == uid
      && size >= NumCandidates
      && ((split == Validation && index == -2 && |hist| < 2) || (split == Test && index == -1 && |hist| < 1))
    case BadTable(_) => false
  }

  /** Where the walk stops: at the first user whose step fails, for the
      reason its error gives. */
  lemma BuildStops(rows: seq<Row>, split: Split, draw: nat -> nat, pos: nat)
    requires Build(rows, split, draw, pos).error.Some?
    ensures var g, users := Build(rows, split, draw, pos), Unique(Uids(rows));
      && |g.records| < |users|
      && FailureExplained(rows, Unique(Iids(rows)), users[|g.records|], split, g.error.value)
  {
    var universe := Unique(Iids(rows));
    var users := Unique(Uids(rows));
    var step := StepOf(rows, universe, split, draw);
    var k, at, e := WalkStop(step, users, pos);
    StepFails(rows, universe, users[k], split, draw, at, e);
  }

  /** A failed step fails for the reason its error gives. */
  lemma StepFails(rows: seq<Row>, universe: seq<string>, uid: string, split: Split, draw: nat -> nat, pos: nat, e: BuildError)
    requires StepOf(rows, universe, split, draw)(uid, pos) == Failure(e)
    ensures FailureExplained(rows, universe, uid, split, e)
  {
    assert StepOf(rows, universe, split, draw)(uid, pos) == Step(rows, universe, uid, split, draw, pos);
    var hist := History(rows, uid);
    var pool := Pool(universe, hist);
    StepSpec(rows, universe, uid, split, draw, pos);
    if |pool| >= NumCandidates {
      MakeExampleSpec(split, uid, hist, Drawn(pool, NumCandidates, draw, pos).value);
    }
  }

  /** A walk whose every user's step succeeds, wherever the stream
      stands, yields a record for every user. */
  lemma {:induction false} WalkCompletes(step: (string, nat) -> Result<Example, BuildError>, users: seq<string>, pos: nat)
    requires forall i, p: nat :: 0 <= i < |users| ==> step(users[i], p).Success?
    ensures Walk(step, users, pos).error.None?
    decreases |users|
  {
    if users != [] {
      assert step(users[0], pos).Success?;
      forall i, p: nat | 0 <= i < |users[1..]| ensures step(users[1..][i], p).Success? {
        assert users[1..][i] == users[i + 1];
      }
      WalkCompletes(step, users[1..], pos + NumCandidates);
    }
  }

  /** A step succeeds when at least ten items are left unrated and the
      history is long enough for the split's target. */
  lemma StepSucceeds(rows: seq<Row>, universe: seq<string>, uid: string, split: Split, draw: nat -> nat, pos: nat)
    requires |Pool(universe, History(rows, uid))| >= NumCandidates
    requires split == Validation ==> |History(rows, uid)| >= 2
    requires split == Test ==> |History(rows, uid)| >= 1
    ensures StepOf(rows, universe, split, draw)(uid, pos).Success?
  {
    var hist := History(rows, uid);
    var pool := Pool(universe, hist);
    assert StepOf(rows, universe, split, draw)(uid, pos) == Step(rows, universe, uid, split, draw, pos);
    StepSpec(rows, universe, uid, split, draw, pos);
    MakeExampleSpec(split, uid, hist, Drawn(pool, NumCandidates, draw, pos).value);
  }

  /** The walk cannot fail on a table where every user has at least ten
      unrated items and, for the validation split, at least two ratings
      (every user has one rating, which the test split needs). */
  lemma BuildSucceeds(rows: seq<Row>, split: Split, draw: nat -> nat, pos: nat)
    requires forall u :: u in Uids(rows) ==>
      |Pool(Unique(Iids(rows)), History(rows, u))| >= NumCandidates && (split == Validation ==> |History(rows, u)| >= 2)
    ensures Build(rows, split, draw, pos).error.None?
  {
    var universe := Unique(Iids(rows));
    var users := Unique(Uids(rows));
    forall i, p: nat | 0 <= i < |users| ensures StepOf(rows, universe, split, draw)(users[i], p).Success? {
      assert users[i] in users;
      assert users[i] in Uids(rows);
      UserHasRows(rows, users[i]);
      StepSucceeds(rows, universe, users[i], split, draw, p);
    }
    WalkCompletes(StepOf(rows, universe, split, draw), users, pos);
  }

  /** The stream moves ten draws per user in every split: a pass that
      yields every record leaves it `NumCandidates` draws per user further
      on, whatever the split. */
  lemma BuildDraws(rows: seq<Row>, split: Split, draw: nat -> nat, pos: nat)
    ensures var g := Build(rows, split, draw, pos);
      g.error.None? ==> g.pos == pos + |Unique(Uids(rows))| * NumCandidates
  {
    WalkShape(StepOf(rows, Unique(Iids(rows)), split, draw), Unique(Uids(rows)), pos);
  }

  /** Two passes over the same table and stream, for any two splits, offer
      every user they both reach the same candidates. */
  lemma BuildSameCandidates(rows: seq<Row>, a: Split, b: Split, draw: nat -> nat, pos: nat, i: nat)
    requires i < |Build(rows, a, draw, pos).records|
    requires i < |Build(rows, b, draw, pos).records|
    ensures Build(rows, a, draw, pos).records[i].key == Build(rows, b, draw, pos).records[i].key
    ensures Build(rows, a, draw, pos).records[i].example.candidates == Build(rows, b, draw, pos).records[i].example.candidates
  {
    var universe := Unique(Iids(rows));
    var users := Unique(Uids(rows));
    WalkShape(StepOf(rows, universe, a, draw), users, pos);
    WalkShape(StepOf(rows, universe, b, draw), users, pos);
    CandidatesIndependentOfSplit(rows, universe, users[i], a, b, draw, pos + i * NumCandidates);
  }
}

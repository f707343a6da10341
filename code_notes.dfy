/** src/index.ts: the response schemas and `codeNotes`, which turns a medical
    note into ICD-10 codes through six stages run one after the other. The
    language-model and embedding calls are oracles held in a `Context`. */
module CodeNotes {
  import opened Wrappers
  import opened Hnsw
  import opened Helpers

  // ---------------------------------------------------------------------------
  // Schemas

  /** `ICD10CodeSchema`. */
  datatype ICD10Code = ICD10Code(code: string, description: string, evidence: string)

  /** `CodeResponseSchema`. */
  datatype CodeResponse = CodeResponse(codes: seq<ICD10Code>)

  /** One element of `PatientReviewSchema.review`. */
  datatype ReviewEntry = ReviewEntry(code: string, accept: bool, reason: string)

  /** `PatientReviewSchema`. */
  datatype PatientReview = PatientReview(review: seq<ReviewEntry>)

  /** The schema of the symptom completion. */
  datatype SymptomList = SymptomList(symptoms: seq<string>)

  /** The schema of the assessment-and-plan completion. */
  datatype AssessmentAndPlan = AssessmentAndPlan(assessment: string, plan: string)

  /** `{code, description: codeDescriptions.get(code)}`: the shape of a
      candidate and of a dispute. */
  datatype DescribedCode = DescribedCode(code: string, description: Option<string>)

  function CodeKey(c: DescribedCode): string
  {
    c.code
  }

  // ---------------------------------------------------------------------------
  // Candidate aggregation

  /** `neighbors.filter(n => n.code != undefined).map(n => ({code, description}))`. */
  function Described(neighbors: seq<Neighbor>, codeDescriptions: map<string, string>): (r: seq<DescribedCode>)
    ensures |r| <= |neighbors|
    ensures forall d :: d in r ==> d.description == Get(codeDescriptions, d.code)
    ensures forall d :: d in r ==> d.code in DefinedCodes(neighbors)
  {
    if neighbors == [] then []
    else
      var rest := Described(neighbors[1..], codeDescriptions);
      match neighbors[0].code
      case None => rest
      case Some(c) => [DescribedCode(c, Get(codeDescriptions, c))] + rest
  }

  /** The `flatMap` over the neighbour lists of the symptom embeddings. */
  function Gathered(neighborLists: seq<seq<Neighbor>>, codeDescriptions: map<string, string>): (r: seq<DescribedCode>)
    ensures forall d :: d in r ==> d.description == Get(codeDescriptions, d.code)
    ensures forall d :: d in r ==> d.code in NeighborCodes(neighborLists)
  {
    if neighborLists == [] then []
    else Described(neighborLists[0], codeDescriptions) + Gathered(neighborLists[1..], codeDescriptions)
  }

  /** `candidateCodes`: the gathered codes deduplicated by `code`. */
  function Candidates(neighborLists: seq<seq<Neighbor>>, codeDescriptions: map<string, string>): (r: seq<DescribedCode>)
    ensures neighborLists == [] ==> r == []
  {
    Dedupe(CodeKey, Gathered(neighborLists, codeDescriptions))
  }

  /** Reference: the defined codes of one neighbour list, in order. */
  function DefinedCodes(neighbors: seq<Neighbor>): (codes: seq<string>)
  {
    if neighbors == [] then []
    else (if neighbors[0].code.Some? then [neighbors[0].code.value] else []) + DefinedCodes(neighbors[1..])
  }

  /** Reference: the defined codes of all neighbour lists, list after list. */
  function NeighborCodes(neighborLists: seq<seq<Neighbor>>): seq<string>
  {
    if neighborLists == [] then [] else DefinedCodes(neighborLists[0]) + NeighborCodes(neighborLists[1..])
  }

  /** Each code paired with its looked-up description. */
  function Resolve(codes: seq<string>, codeDescriptions: map<string, string>): (r: seq<DescribedCode>)
    ensures |r| == |codes|
    ensures forall i :: 0 <= i < |codes| ==> r[i] == DescribedCode(codes[i], Get(codeDescriptions, codes[i]))
  {
    seq(|codes|, i requires 0 <= i < |codes| => DescribedCode(codes[i], Get(codeDescriptions, codes[i])))
  }

  lemma KeysOfConcat<T, K>(key: T -> K, a: seq<T>, b: seq<T>)
    ensures KeysOf(key, a + b) == KeysOf(key, a) + KeysOf(key, b)
  {
  }

  lemma {:induction false} DescribedCodes(neighbors: seq<Neighbor>, codeDescriptions: map<string, string>)
    ensures KeysOf(CodeKey, Described(neighbors, codeDescriptions)) == DefinedCodes(neighbors)
    ensures forall x :: x in Described(neighbors, codeDescriptions) ==> x.description == Get(codeDescriptions, x.code)
  {
    if neighbors != [] {
      DescribedCodes(neighbors[1..], codeDescriptions);
      var rest := Described(neighbors[1..], codeDescriptions);
      if neighbors[0].code.Some? {
        var c := neighbors[0].code.value;
        KeysOfConcat(CodeKey, [DescribedCode(c, Get(codeDescriptions, c))], rest);
      }
    }
  }

  /** The gathered sequence lists the defined neighbour codes in order, each
      with the description looked up for it. */
  lemma {:induction false} GatheredCodes(neighborLists: seq<seq<Neighbor>>, codeDescriptions: map<string, string>)
    ensures KeysOf(CodeKey, Gathered(neighborLists, codeDescriptions)) == NeighborCodes(neighborLists)
    ensures forall x :: x in Gathered(neighborLists, codeDescriptions) ==> x.description == Get(codeDescriptions, x.code)
  {
    if neighborLists != [] {
      GatheredCodes(neighborLists[1..], codeDescriptions);
      DescribedCodes(neighborLists[0], codeDescriptions);
      KeysOfConcat(CodeKey, Described(neighborLists[0], codeDescriptions), Gathered(neighborLists[1..], codeDescriptions));
    }
  }

  /** The candidates are exactly the defined neighbour codes, each once at its
      first appearance (symptom by symptom, neighbour by neighbour), each with
      `codeDescriptions.get(code)`, which may be `undefined`. Because all
      entries with one code are equal, keeping the last (as the Map does)
      gives the same candidate as keeping the first. */
  lemma CandidatesAreFirstCodes(neighborLists: seq<seq<Neighbor>>, codeDescriptions: map<string, string>)
    ensures Candidates(neighborLists, codeDescriptions)
      == Resolve(FirstOccurrences(NeighborCodes(neighborLists)), codeDescriptions)
  {
    var g := Gathered(neighborLists, codeDescriptions);
    GatheredCodes(neighborLists, codeDescriptions);
    DedupeKeysAreFirstOccurrences(CodeKey, g);
    DedupeKeepsLast(CodeKey, g);
    var d := Dedupe(CodeKey, g);
    var f := FirstOccurrences(NeighborCodes(neighborLists));
    assert KeysOf(CodeKey, d) == f;
    forall i | 0 <= i < |d|
      ensures d[i] == DescribedCode(f[i], Get(codeDescriptions, f[i]))
    {
      var j := LastIndex(CodeKey, g, CodeKey(d[i]));
      assert d[i] == g[j] && g[j] in g;
      assert f[i] == d[i].code;
    }
  }

  /** The candidate codes are pairwise distinct, are exactly the defined
      neighbour codes, and come in the order of their first appearance. */
  lemma CandidateCodesDistinctInFirstOrder(neighborLists: seq<seq<Neighbor>>, codeDescriptions: map<string, string>)
    ensures var cs, all := Candidates(neighborLists, codeDescriptions), NeighborCodes(neighborLists);
      && (forall i, j :: 0 <= i < j < |cs| ==> cs[i].code != cs[j].code)
      && (forall i :: 0 <= i < |cs| ==> cs[i].code in all)
      && (forall c :: c in all ==> exists i :: 0 <= i < |cs| && cs[i].code == c)
      && (forall i, j :: 0 <= i < j < |cs| ==> IndexOf(all, cs[i].code) < IndexOf(all, cs[j].code))
  {
    var all := NeighborCodes(neighborLists);
    CandidatesAreFirstCodes(neighborLists, codeDescriptions);
    FirstOccurrencesSpec(all);
    FirstOccurrencesOrder(all);
    var f := FirstOccurrences(all);
    var cs := Candidates(neighborLists, codeDescriptions);
    forall c | c in all
      ensures exists i :: 0 <= i < |cs| && cs[i].code == c
    {
      assert c in f;
      var i :| 0 <= i < |f| && f[i] == c;
      assert cs[i].code == c;
    }
  }

  // ---------------------------------------------------------------------------
  // Dispute extraction

  /** `review.filter(c => c.accept == false).map(c => ({code, description}))`. */
  function Disputes(review: seq<ReviewEntry>, codeDescriptions: map<string, string>): (ds: seq<DescribedCode>)
    ensures |ds| <= |review|
    ensures forall i :: 0 <= i < |ds| ==> ds[i].description == Get(codeDescriptions, ds[i].code)
  {
    if review == [] then []
    else
      (if !review[0].accept then [DescribedCode(review[0].code, Get(codeDescriptions, review[0].code))] else [])
      + Disputes(review[1..], codeDescriptions)
  }

  /** Extraction works entry by entry: the disputes of a concatenation are the
      disputes of each part, in order. */
  lemma {:induction false} DisputesAppend(a: seq<ReviewEntry>, b: seq<ReviewEntry>, codeDescriptions: map<string, string>)
    ensures Disputes(a + b, codeDescriptions) == Disputes(a, codeDescriptions) + Disputes(b, codeDescriptions)
  {
    if a == [] {
      assert a + b == b;
    } else {
      assert (a + b)[0] == a[0] && (a + b)[1..] == a[1..] + b;
      DisputesAppend(a[1..], b, codeDescriptions);
    }
  }

  /** A dispute is the projection of a rejected entry, every rejected entry
      gives one, and there are none exactly when every entry was accepted. */
  lemma {:induction false} DisputesAreRejections(review: seq<ReviewEntry>, codeDescriptions: map<string, string>)
    ensures var ds := Disputes(review, codeDescriptions);
      && |ds| <= |review|
      && (forall d :: d in ds ==>
            exists e :: e in review && !e.accept && d == DescribedCode(e.code, Get(codeDescriptions, e.code)))
      && (forall e :: e in review && !e.accept ==> DescribedCode(e.code, Get(codeDescriptions, e.code)) in ds)
      && (ds == [] <==> forall e :: e in review ==> e.accept)
  {
    if review != [] {
      DisputesAreRejections(review[1..], codeDescriptions);
      assert review == [review[0]] + review[1..];
      forall e | e in review ensures e == review[0] || e in review[1..] { }
    }
  }

  // ---------------------------------------------------------------------------
  // The stage sequence of codeNotes

  /** The collaborators `codeNotes` reaches: the five structured completions
      (each `None` for a `null` response), `getEmbedding(_, "small")`, the
      built index's `searchNearest` with its default `k`, and the
      `codeDescriptions` map read from the CSV. */
  datatype Context = Context(
    completeSymptoms: string -> Option<SymptomList>,
    getEmbedding: string -> Vector,
    completeAssessmentAndPlan: string -> Option<AssessmentAndPlan>,
    completePhysicianCodes: (string, AssessmentAndPlan, seq<DescribedCode>) -> Option<CodeResponse>,
    completePatientReview: (string, seq<ICD10Code>) -> Option<PatientReview>,
    completeAdjustorReview: (string, seq<ICD10Code>, seq<DescribedCode>, seq<DescribedCode>) -> Option<CodeResponse>,
    searchNearest: Vector -> seq<Neighbor>,
    codeDescriptions: map<string, string>)

  datatype Stage =
    | SymptomsStage | CandidatesStage | AssessmentStage | PhysicianStage | PatientStage | AdjustorStage

  /** The stages in the order `codeNotes` runs them. */
  const AllStages: seq<Stage> :=
    [SymptomsStage, CandidatesStage, AssessmentStage, PhysicianStage, PatientStage, AdjustorStage]

  /** The errors `codeNotes` throws. */
  datatype Error = NoSymptoms | NoAssessmentAndPlan | NoPhysicianCodes | NoPatientReview | NoAdjustorReview

  function Message(e: Error): string
  {
    match e
    case NoSymptoms => "No symptoms"
    case NoAssessmentAndPlan => "No assessment and plan"
    case NoPhysicianCodes => "No physician codes"
    case NoPatientReview => "No patient review"
    case NoAdjustorReview => "No adjustor review"
  }

  /** The stage whose `null` response throws `e`. */
  function FailingStage(e: Error): Stage
  {
    match e
    case NoSymptoms => SymptomsStage
    case NoAssessmentAndPlan => AssessmentStage
    case NoPhysicianCodes => PhysicianStage
    case NoPatientReview => PatientStage
    case NoAdjustorReview => AdjustorStage
  }

  /** `symptomEmbs`: the embedding of each symptom, in symptom order. */
  function Embeddings(ctx: Context, symptoms: seq<string>): (embs: seq<Vector>)
    ensures |embs| == |symptoms|
    ensures forall i :: 0 <= i < |symptoms| ==> embs[i] == ctx.getEmbedding(symptoms[i])
  {
    seq(|symptoms|, i requires 0 <= i < |symptoms| => ctx.getEmbedding(symptoms[i]))
  }

  /** The neighbour lists of the symptom embeddings, in symptom order. */
  function NeighborLists(ctx: Context, symptoms: seq<string>): (lists: seq<seq<Neighbor>>)
    ensures |lists| == |symptoms|
    ensures forall i :: 0 <= i < |symptoms| ==> lists[i] == ctx.searchNearest(ctx.getEmbedding(symptoms[i]))
  {
    var embs := Embeddings(ctx, symptoms);
    seq(|embs|, i requires 0 <= i < |embs| => ctx.searchNearest(embs[i]))
  }

  /** `candidateCodes` for the symptoms of the first stage. */
  function RetrievedCandidates(ctx: Context, symptoms: seq<string>): (r: seq<DescribedCode>)
    ensures symptoms == [] ==> r == []
  {
    Candidates(NeighborLists(ctx, symptoms), ctx.codeDescriptions)
  }

  /** What `codeNotes(input)` settles to, with the stages it invoked in
      order: the resolved codes, or the error it threw. */
  datatype Run = Run(result: Result<seq<ICD10Code>, Error>, invoked: seq<Stage>)

  /** `codeNotes(input)`: the stages run one after the other, each awaited
      before the next starts, and the first `null` response throws. The
      invoked stages are always a non-empty prefix of the fixed order, a run
      that throws stops at the stage that threw, and a run that returns went
      through every stage. */
  function CodeNotes(ctx: Context, input: string): (run: Run)
    ensures 0 < |run.invoked| && run.invoked <= AllStages
    ensures run.result.Failure? ==> run.invoked[|run.invoked| - 1] == FailingStage(run.result.error)
    ensures run.result.Success? ==> run.invoked == AllStages
  {
    match ctx.completeSymptoms(input)
    case None => Run(Failure(NoSymptoms), AllStages[..1])
    case Some(symptoms) =>
      var candidates := RetrievedCandidates(ctx, symptoms.symptoms);
      match ctx.completeAssessmentAndPlan(input)
      case None => Run(Failure(NoAssessmentAndPlan), AllStages[..3])
      case Some(ap) =>
        match ctx.completePhysicianCodes(input, ap, candidates)
        case None => Run(Failure(NoPhysicianCodes), AllStages[..4])
        case Some(physician) =>
          match ctx.completePatientReview(input, physician.codes)
          case None => Run(Failure(NoPatientReview), AllStages[..5])
          case Some(review) =>
            var disputes := Disputes(review.review, ctx.codeDescriptions);
            match ctx.completeAdjustorReview(input, physician.codes, disputes, candidates)
            case None => Run(Failure(NoAdjustorReview), AllStages)
            case Some(adjusted) => Run(Success(adjusted.codes), AllStages)
  }

  // ---------------------------------------------------------------------------
  // Fail-fast behaviour of codeNotes, stage by stage

  /** A `null` symptom response throws "No symptoms" and nothing else runs. */
  lemma NullSymptomsThrows(ctx: Context, input: string)
    requires ctx.completeSymptoms(input) == None
    ensures CodeNotes(ctx, input) == Run(Failure(NoSymptoms), [SymptomsStage])
    ensures Message(CodeNotes(ctx, input).result.error) == "No symptoms"
  {
  }

  /** A `null` assessment-and-plan response throws "No assessment and plan"
      after the symptoms and candidates, and no later stage runs. */
  lemma NullAssessmentThrows(ctx: Context, input: string, symptoms: SymptomList)
    requires ctx.completeSymptoms(input) == Some(symptoms)
    requires ctx.completeAssessmentAndPlan(input) == None
    ensures CodeNotes(ctx, input) == Run(Failure(NoAssessmentAndPlan), [SymptomsStage, CandidatesStage, AssessmentStage])
    ensures Message(CodeNotes(ctx, input).result.error) == "No assessment and plan"
  {
  }

  /** A `null` physician response throws "No physician codes"; neither review runs. */
  lemma NullPhysicianCodesThrows(ctx: Context, input: string, symptoms: SymptomList, ap: AssessmentAndPlan)
    requires ctx.completeSymptoms(input) == Some(symptoms)
    requires ctx.completeAssessmentAndPlan(input) == Some(ap)
    requires ctx.completePhysicianCodes(input, ap, RetrievedCandidates(ctx, symptoms.symptoms)) == None
    ensures CodeNotes(ctx, input) == Run(Failure(NoPhysicianCodes), [SymptomsStage, CandidatesStage, AssessmentStage, PhysicianStage])
    ensures Message(CodeNotes(ctx, input).result.error) == "No physician codes"
  {
  }

  /** A `null` patient review throws "No patient review"; the adjustor does not run. */
  lemma NullPatientReviewThrows(ctx: Context, input: string, symptoms: SymptomList,
                                ap: AssessmentAndPlan, physician: CodeResponse)
    requires ctx.completeSymptoms(input) == Some(symptoms)
    requires ctx.completeAssessmentAndPlan(input) == Some(ap)
    requires ctx.completePhysicianCodes(input, ap, RetrievedCandidates(ctx, symptoms.symptoms)) == Some(physician)
    requires ctx.completePatientReview(input, physician.codes) == None
    ensures CodeNotes(ctx, input) == Run(Failure(NoPatientReview), [SymptomsStage, CandidatesStage, AssessmentStage, PhysicianStage, PatientStage])
    ensures Message(CodeNotes(ctx, input).result.error) == "No patient review"
  {
  }

  /** Once the patient review is in, the adjustor always runs, with the
      disputes extracted from the review (the empty list when every code was
      accepted) and the candidates; `codeNotes` returns exactly its codes, or
      throws "No adjustor review" on `null`. */
  lemma AdjustorAlwaysRuns(ctx: Context, input: string, symptoms: SymptomList,
                           ap: AssessmentAndPlan, physician: CodeResponse, review: PatientReview)
    requires ctx.completeSymptoms(input) == Some(symptoms)
    requires ctx.completeAssessmentAndPlan(input) == Some(ap)
    requires ctx.completePhysicianCodes(input, ap, RetrievedCandidates(ctx, symptoms.symptoms)) == Some(physician)
    requires ctx.completePatientReview(input, physician.codes) == Some(review)
    ensures var candidates := RetrievedCandidates(ctx, symptoms.symptoms);
      var disputes := Disputes(review.review, ctx.codeDescriptions);
      var adjustor := ctx.completeAdjustorReview(input, physician.codes, disputes, candidates);
      && CodeNotes(ctx, input).invoked == AllStages
      && CodeNotes(ctx, input).result
           == (if adjustor.Some? then Success(adjustor.value.codes) else Failure(NoAdjustorReview))
      && ((forall e :: e in review.review ==> e.accept) ==> disputes == [])
  {
    DisputesAreRejections(review.review, ctx.codeDescriptions);
  }

  /** An empty symptom list is not an error: the candidates are empty and
      the run goes on to the assessment-and-plan stage. */
  lemma EmptySymptomListContinues(ctx: Context, input: string)
    requires ctx.completeSymptoms(input) == Some(SymptomList([]))
    ensures RetrievedCandidates(ctx, []) == []
    ensures |CodeNotes(ctx, input).invoked| >= 3
    ensures CodeNotes(ctx, input).result != Failure(NoSymptoms)
  {
    assert NeighborLists(ctx, []) == [];
  }

  /** The returned codes are not checked against the candidates: a run with
      no candidates at all can still return a code. */
  lemma ReturnedCodesNeedNotBeCandidates()
    ensures var code := ICD10Code("J01.90", "Acute sinusitis, unspecified", "fever and headache");
      var ctx := Context(
        _ => Some(SymptomList([])),
        _ => [],
        _ => Some(AssessmentAndPlan("sinusitis", "antibiotics")),
        (_, _, _) => Some(CodeResponse([code])),
        (_, _) => Some(PatientReview([])),
        (_, _, _, _) => Some(CodeResponse([code])),
        _ => [],
        map[]);
      && RetrievedCandidates(ctx, []) == []
      && CodeNotes(ctx, "note").result == Success([code])
  {
    var code := ICD10Code("J01.90", "Acute sinusitis, unspecified", "fever and headache");
    var ctx := Context(
        _ => Some(SymptomList([])),
        _ => [],
        _ => Some(AssessmentAndPlan("sinusitis", "antibiotics")),
        (_, _, _) => Some(CodeResponse([code])),
        (_, _) => Some(PatientReview([])),
        (_, _, _, _) => Some(CodeResponse([code])),
        _ => [],
        map[]);
    EmptySymptomListContinues(ctx, "note");
    AdjustorAlwaysRuns(ctx, "note", SymptomList([]), AssessmentAndPlan("sinusitis", "antibiotics"),
                       CodeResponse([code]), PatientReview([]));
  }
}

/** Where the executions of planners and plan reviews fall against the time from a
    task's adoption to its first ready, and their tokens (`by_boundary` and
    `token_sum` of scripts/follow-up-membership.py). Times are in milliseconds. */
module Boundaries {
  import opened Wrappers
  import opened Sums

  /** In the order of BOUNDARIES: an execution takes the first any of its tasks gives it. */
  datatype Boundary =
    | AdoptToReady
    | CrossingAdoption
    | CrossingReady
    | BeforeAdoption
    | AfterReady
    | UnapprovedOrUnadopted

  function Rank(b: Boundary): nat {
    match b
    case AdoptToReady => 0
    case CrossingAdoption => 1
    case CrossingReady => 2
    case BeforeAdoption => 3
    case AfterReady => 4
    case UnapprovedOrUnadopted => 5
  }

  datatype Tokens = Tokens(input: int, cacheRead: int, cacheCreation: int, output: int)

  /** A turn or a review that ran: when, for which tasks, by whom. It is measured
      when it has tokens and their source. */
  datatype Execution = Execution(begun: int, ended: int, tasks: set<int>, review: bool,
                                 provider: string, tokens: Option<Tokens>)

  /** From a task's adoption to its first ready. */
  datatype Span = Span(adopt: int, ready: int)

  // ----- what the executions are made of

  datatype Row = Row(task: int, adopt: Option<int>, ready: Option<int>, proposals: set<int>)

  datatype Turn = Turn(planner: int, turn: int, ended: int, provider: string, tokens: Option<Tokens>)

  datatype Review = Review(id: int, proposal: int, ended: int, startedAt: Option<int>, provider: string, tokens: Option<Tokens>)

  /** What the events say beside the rows: when turns and reviews started, the tasks
      a draft planner opened for, and the proposals a planner was sent to revise. */
  datatype Context = Context(started: map<(int, int), int>, starts: map<int, int>,
                             draftPlanners: map<int, set<int>>, revised: map<int, set<int>>)

  /** The tasks of `rows` adopted and then ready; a ready before the adoption does not count. */
  function SpansOf(rows: seq<Row>): map<int, Span> {
    if rows == [] then map[]
    else
      var r := rows[|rows| - 1];
      var before := SpansOf(rows[..|rows| - 1]);
      if r.adopt.Some? && r.ready.Some? && r.ready.value >= r.adopt.value
      then before[r.task := Span(r.adopt.value, r.ready.value)] else before
  }

  function TasksOfProposals(rows: seq<Row>, proposals: set<int>): set<int> {
    set i | 0 <= i < |rows| && rows[i].proposals * proposals != {} :: rows[i].task
  }

  /** A planner turn: of the tasks its planner was opened for or revises. */
  function OfTurn(rows: seq<Row>, ctx: Context, t: Turn): Execution {
    var draft := if t.planner in ctx.draftPlanners then ctx.draftPlanners[t.planner] else {};
    var revised := if t.planner in ctx.revised then ctx.revised[t.planner] else {};
    var begun := if (t.planner, t.turn) in ctx.started then ctx.started[(t.planner, t.turn)] else t.ended;
    Execution(begun, t.ended, draft + TasksOfProposals(rows, revised), false, t.provider, t.tokens)
  }

  /** A review: of the tasks of its proposal. */
  function OfReview(rows: seq<Row>, ctx: Context, r: Review): Execution {
    var begun := if r.id in ctx.starts then ctx.starts[r.id]
                 else if r.startedAt.Some? then r.startedAt.value else r.ended;
    Execution(begun, r.ended, TasksOfProposals(rows, {r.proposal}), true, r.provider, r.tokens)
  }

  // ----- where an execution falls

  /** Where one task places an execution. */
  function PlaceFor(spans: map<int, Span>, e: Execution, t: int): Boundary {
    if t !in spans then UnapprovedOrUnadopted
    else
      var span := spans[t];
      if e.begun < span.adopt <= e.ended then CrossingAdoption
      else if e.ended < span.adopt then BeforeAdoption
      else if e.begun >= span.ready then AfterReady
      else if e.ended <= span.ready || e.review then AdoptToReady
      else CrossingReady
  }

  ghost predicate Gives(spans: map<int, Span>, e: Execution, b: Boundary) {
    exists t :: t in e.tasks && PlaceFor(spans, e, t) == b
  }

  /** The first boundary any task gives; the last one without tasks. */
  ghost function Place(spans: map<int, Span>, e: Execution): Boundary {
    if Gives(spans, e, AdoptToReady) then AdoptToReady
    else if Gives(spans, e, CrossingAdoption) then CrossingAdoption
    else if Gives(spans, e, CrossingReady) then CrossingReady
    else if Gives(spans, e, BeforeAdoption) then BeforeAdoption
    else if Gives(spans, e, AfterReady) then AfterReady
    else UnapprovedOrUnadopted
  }

  lemma LeastPlace(spans: map<int, Span>, e: Execution, b: Boundary)
    requires Gives(spans, e, b)
    requires forall t :: t in e.tasks ==> Rank(b) <= Rank(PlaceFor(spans, e, t))
    ensures Place(spans, e) == b
  {
    var t :| t in e.tasks && PlaceFor(spans, e, t) == b;
  }

  lemma NoPlace(spans: map<int, Span>, e: Execution)
    requires forall t :: t !in e.tasks
    ensures Place(spans, e) == UnapprovedOrUnadopted
  {
  }

  method FindPlace(spans: map<int, Span>, e: Execution) returns (place: Boundary)
    ensures place == Place(spans, e)
  {
    place := UnapprovedOrUnadopted;
    var placed := false;
    var rest := e.tasks;
    while rest != {}
      invariant rest <= e.tasks
      invariant placed ==> Gives(spans, e, place)
      invariant !placed ==> place == UnapprovedOrUnadopted
      invariant forall t :: t in e.tasks && t !in rest ==> placed && Rank(place) <= Rank(PlaceFor(spans, e, t))
      decreases rest
    {
      var t := Pick(rest);
      var b := PlaceFor(spans, e, t);
      if !placed || Rank(b) < Rank(place) {
        place, placed := b, true;
      }
      rest := rest - {t};
    }
    if placed {
      LeastPlace(spans, e, place);
    } else {
      NoPlace(spans, e);
    }
  }

  /** A planner turn counts for adopt-to-ready exactly when it lies wholly inside the
      time from the adoption to the ready of some task it served. */
  lemma TurnInsideSpan(spans: map<int, Span>, e: Execution)
    requires !e.review
    ensures Place(spans, e) == AdoptToReady <==>
            exists t :: t in e.tasks && t in spans && Inside(spans[t], e)
  {
    if Gives(spans, e, AdoptToReady) {
      var t :| t in e.tasks && PlaceFor(spans, e, t) == AdoptToReady;
      assert Inside(spans[t], e);
    }
    if t :| t in e.tasks && t in spans && Inside(spans[t], e) {
      assert PlaceFor(spans, e, t) == AdoptToReady;
    }
  }

  /** It begins from the adoption on and before the ready, and ends by the ready. */
  predicate Inside(span: Span, e: Execution) {
    span.adopt <= e.begun < span.ready && span.adopt <= e.ended <= span.ready
  }

  /** A review counts when it begins inside such a time, even when it ends after:
      the one that approves writes its verdict just after the ready. */
  lemma ReviewBeginsInsideSpan(spans: map<int, Span>, e: Execution)
    requires e.review
    ensures Place(spans, e) == AdoptToReady <==>
            exists t :: t in e.tasks && t in spans && spans[t].adopt <= e.begun < spans[t].ready && spans[t].adopt <= e.ended
  {
    if Gives(spans, e, AdoptToReady) {
      var t :| t in e.tasks && PlaceFor(spans, e, t) == AdoptToReady;
      assert t in spans && spans[t].adopt <= e.begun < spans[t].ready;
    }
    if t :| t in e.tasks && t in spans && spans[t].adopt <= e.begun < spans[t].ready && spans[t].adopt <= e.ended {
      assert PlaceFor(spans, e, t) == AdoptToReady;
    }
  }

  // ----- every boundary, on times

  /** Begun before the adoption and ended from it on. */
  ghost predicate SomeAdoptionCrossed(spans: map<int, Span>, e: Execution) {
    exists t :: t in e.tasks && t in spans && e.begun < spans[t].adopt && spans[t].adopt <= e.ended
  }

  /** Inside a task's time from the adoption to the ready; of a review its end may come after. */
  ghost predicate SomeSpanHolds(spans: map<int, Span>, e: Execution) {
    exists t :: t in e.tasks && t in spans && spans[t].adopt <= e.begun < spans[t].ready && spans[t].adopt <= e.ended
                && (e.ended <= spans[t].ready || e.review)
  }

  /** A turn begun from the adoption on and before the ready, and ended after that. */
  ghost predicate SomeReadyCrossed(spans: map<int, Span>, e: Execution) {
    exists t :: t in e.tasks && t in spans && spans[t].adopt <= e.begun < spans[t].ready < e.ended && spans[t].adopt <= e.ended
                && !e.review
  }

  ghost predicate SomeAdoptionAfter(spans: map<int, Span>, e: Execution) {
    exists t :: t in e.tasks && t in spans && e.ended < spans[t].adopt
  }

  /** Begun from the ready on. */
  ghost predicate SomeReadyBefore(spans: map<int, Span>, e: Execution) {
    exists t :: t in e.tasks && t in spans && spans[t].ready <= e.begun && spans[t].adopt <= e.begun && spans[t].adopt <= e.ended
  }

  lemma GivesExact(spans: map<int, Span>, e: Execution)
    ensures Gives(spans, e, AdoptToReady) <==> SomeSpanHolds(spans, e)
    ensures Gives(spans, e, CrossingAdoption) <==> SomeAdoptionCrossed(spans, e)
    ensures Gives(spans, e, CrossingReady) <==> SomeReadyCrossed(spans, e)
  {
    assert forall t :: t in e.tasks && PlaceFor(spans, e, t) == AdoptToReady ==> t in spans;
  }

  lemma GivesOutsideExact(spans: map<int, Span>, e: Execution)
    ensures Gives(spans, e, BeforeAdoption) <==> SomeAdoptionAfter(spans, e)
    ensures Gives(spans, e, AfterReady) <==> SomeReadyBefore(spans, e)
    ensures Gives(spans, e, UnapprovedOrUnadopted) <==> exists t :: t in e.tasks && t !in spans
  {
    assert forall t :: t in e.tasks && t !in spans ==> PlaceFor(spans, e, t) == UnapprovedOrUnadopted;
  }

  /** Where an execution falls: inside the time of some task, else across the adoption
      of some, else across the ready of some, else before the adoption of some, else
      after the ready of some, and else it served no adopted and ready task. */
  lemma PlaceExactly(spans: map<int, Span>, e: Execution)
    ensures Place(spans, e) == AdoptToReady <==> SomeSpanHolds(spans, e)
    ensures Place(spans, e) == CrossingAdoption <==> !SomeSpanHolds(spans, e) && SomeAdoptionCrossed(spans, e)
    ensures Place(spans, e) == CrossingReady <==>
            !SomeSpanHolds(spans, e) && !SomeAdoptionCrossed(spans, e) && SomeReadyCrossed(spans, e)
    ensures Place(spans, e) == BeforeAdoption <==>
            && !SomeSpanHolds(spans, e) && !SomeAdoptionCrossed(spans, e) && !SomeReadyCrossed(spans, e)
            && SomeAdoptionAfter(spans, e)
    ensures Place(spans, e) == AfterReady <==>
            && !SomeSpanHolds(spans, e) && !SomeAdoptionCrossed(spans, e) && !SomeReadyCrossed(spans, e)
            && !SomeAdoptionAfter(spans, e) && SomeReadyBefore(spans, e)
    ensures Place(spans, e) == UnapprovedOrUnadopted <==> forall t :: t in e.tasks ==> t !in spans
  {
    GivesExact(spans, e);
    GivesOutsideExact(spans, e);
    SomeGiven(spans, e);
    hide Gives, SomeSpanHolds, SomeAdoptionCrossed, SomeReadyCrossed, SomeAdoptionAfter, SomeReadyBefore;
  }

  /** An adopted and ready task gives one of the first five boundaries. */
  lemma SomeGiven(spans: map<int, Span>, e: Execution)
    ensures (exists t :: t in e.tasks && t in spans) <==>
            || Gives(spans, e, AdoptToReady) || Gives(spans, e, CrossingAdoption) || Gives(spans, e, CrossingReady)
            || Gives(spans, e, BeforeAdoption) || Gives(spans, e, AfterReady)
  {
    if t :| t in e.tasks && t in spans {
      assert Gives(spans, e, PlaceFor(spans, e, t));
    }
    assert forall t :: t in e.tasks && PlaceFor(spans, e, t) != UnapprovedOrUnadopted ==> t in spans;
  }

  // ----- what an execution is made of

  /** The row says the task was adopted, and ready from then on. */
  predicate Adopted(r: Row, task: int) {
    r.task == task && r.adopt.Some? && r.ready.Some? && r.ready.value >= r.adopt.value
  }

  /** The last row that says so gives the task its span. */
  ghost predicate SpanAt(rows: seq<Row>, task: int, span: Span) {
    exists i :: 0 <= i < |rows| && Adopted(rows[i], task)
                && span.adopt == rows[i].adopt.value && span.ready == rows[i].ready.value
                && forall j :: i < j < |rows| ==> !Adopted(rows[j], task)
  }

  lemma {:induction false} SpansExact(rows: seq<Row>, task: int, span: Span)
    ensures (task in SpansOf(rows) && SpansOf(rows)[task] == span) <==> SpanAt(rows, task, span)
  {
    if rows != [] {
      var n := |rows| - 1;
      SpansExact(rows[..n], task, span);
      SpanAtMore(rows[..n], rows[n], task, span);
      assert rows == rows[..n] + [rows[n]];
    }
  }

  lemma SpanAtMore(rows: seq<Row>, r: Row, task: int, span: Span)
    ensures SpanAt(rows + [r], task, span) <==>
            if Adopted(r, task) then span == Span(r.adopt.value, r.ready.value) else SpanAt(rows, task, span)
  {
    var all, n := rows + [r], |rows|;
    assert all[n] == r && forall i :: 0 <= i < n ==> all[i] == rows[i];
    if SpanAt(all, task, span) {
      var i :| 0 <= i < |all| && Adopted(all[i], task)
               && span.adopt == all[i].adopt.value && span.ready == all[i].ready.value
               && forall j :: i < j < |all| ==> !Adopted(all[j], task);
      assert i == n <==> Adopted(r, task);
      assert forall j :: i < j < n ==> !Adopted(all[j], task);
    }
    if !Adopted(r, task) && SpanAt(rows, task, span) {
      var i :| 0 <= i < n && Adopted(rows[i], task)
               && span.adopt == rows[i].adopt.value && span.ready == rows[i].ready.value
               && forall j :: i < j < n ==> !Adopted(rows[j], task);
      assert forall j :: i < j < |all| ==> !Adopted(all[j], task);
    }
  }

  /** A row of the task lists the proposal. */
  ghost predicate Proposed(rows: seq<Row>, task: int, proposal: int) {
    exists i :: 0 <= i < |rows| && rows[i].task == task && proposal in rows[i].proposals
  }

  lemma Common<T>(a: set<T>, b: set<T>) returns (x: T)
    requires a * b != {}
    ensures x in a && x in b
  {
    x :| x in a * b;
  }

  lemma TasksExact(rows: seq<Row>, proposals: set<int>, task: int)
    ensures task in TasksOfProposals(rows, proposals) <==> exists p :: p in proposals && Proposed(rows, task, p)
  {
    if task in TasksOfProposals(rows, proposals) {
      var i :| 0 <= i < |rows| && rows[i].proposals * proposals != {} && rows[i].task == task;
      var p := Common(rows[i].proposals, proposals);
      assert Proposed(rows, task, p);
    }
    if p :| p in proposals && Proposed(rows, task, p) {
      var i :| 0 <= i < |rows| && rows[i].task == task && p in rows[i].proposals;
      assert p in rows[i].proposals * proposals;
    }
  }

  /** A planner turn runs from its start, or from its end when no start is known, and
      served the tasks its planner was opened for and those of the proposals it revised. */
  lemma TurnExactly(rows: seq<Row>, ctx: Context, t: Turn, task: int)
    ensures var e := OfTurn(rows, ctx, t);
      && e.ended == t.ended && !e.review && e.provider == t.provider && e.tokens == t.tokens
      && ((t.planner, t.turn) in ctx.started ==> e.begun == ctx.started[(t.planner, t.turn)])
      && ((t.planner, t.turn) !in ctx.started ==> e.begun == t.ended)
      && (task in e.tasks <==>
          || (t.planner in ctx.draftPlanners && task in ctx.draftPlanners[t.planner])
          || (t.planner in ctx.revised && exists p :: p in ctx.revised[t.planner] && Proposed(rows, task, p)))
  {
    TasksExact(rows, if t.planner in ctx.revised then ctx.revised[t.planner] else {}, task);
    hide TasksOfProposals, Proposed;
  }

  /** A review runs from its start event, or the start it records, or else from its
      end, and served the tasks of its proposal. */
  lemma ReviewExactly(rows: seq<Row>, ctx: Context, r: Review, task: int)
    ensures var e := OfReview(rows, ctx, r);
      && e.ended == r.ended && e.review && e.provider == r.provider && e.tokens == r.tokens
      && (r.id in ctx.starts ==> e.begun == ctx.starts[r.id])
      && (r.id !in ctx.starts && r.startedAt.Some? ==> e.begun == r.startedAt.value)
      && (r.id !in ctx.starts && r.startedAt.None? ==> e.begun == r.ended)
      && (task in e.tasks <==> Proposed(rows, task, r.proposal))
  {
    TasksExact(rows, {r.proposal}, task);
  }

  // ----- token sums

  function Measured(e: Execution): int {
    if e.tokens.Some? then 1 else 0
  }

  function Total(t: Tokens): int {
    t.input + t.cacheRead + t.cacheCreation + t.output
  }

  function AllTokens(e: Execution): int {
    if e.tokens.Some? then Total(e.tokens.value) else 0
  }

  /** What provider `p` used in `e`, by a part of the tokens. */
  function Used(p: string, part: Tokens -> int): Execution -> int {
    (e: Execution) => if e.tokens.Some? && e.provider == p then part(e.tokens.value) else 0
  }

  function InputOf(t: Tokens): int { t.input }
  function CacheReadOf(t: Tokens): int { t.cacheRead }
  function CacheCreationOf(t: Tokens): int { t.cacheCreation }
  function OutputOf(t: Tokens): int { t.output }

  /** The sum of a measure over executions. */
  function SumOf(f: Execution -> int, es: seq<Execution>): int {
    if es == [] then 0 else SumOf(f, es[..|es| - 1]) + f(es[|es| - 1])
  }

  datatype Parts = Parts(input: int, cacheRead: int, cacheCreation: int, output: int, total: int)

  datatype TokenSum = TokenSum(executions: nat, measured: int, byProvider: map<string, Parts>, total: int)

  function PartsOf(es: seq<Execution>, p: string): Parts {
    Parts(SumOf(Used(p, InputOf), es), SumOf(Used(p, CacheReadOf), es), SumOf(Used(p, CacheCreationOf), es),
          SumOf(Used(p, OutputOf), es), SumOf(Used(p, Total), es))
  }

  function Providers(es: seq<Execution>): set<string> {
    set i | 0 <= i < |es| && es[i].tokens.Some? :: es[i].provider
  }

  /** The tokens of `es` by provider, and their total. */
  ghost predicate IsSumOf(s: TokenSum, es: seq<Execution>) {
    && s.executions == |es| && s.measured == SumOf(Measured, es)
    && s.byProvider.Keys == Providers(es)
    && (forall p :: p in s.byProvider ==> s.byProvider[p] == PartsOf(es, p))
    && s.total == SumOf(AllTokens, es)
  }

  /** The parts of one more execution added to a provider's. */
  function Plus(parts: Parts, t: Tokens): Parts {
    Parts(parts.input + t.input, parts.cacheRead + t.cacheRead, parts.cacheCreation + t.cacheCreation,
          parts.output + t.output, parts.total + Total(t))
  }

  const NO_PARTS := Parts(0, 0, 0, 0, 0)

  lemma {:induction false} NoneUsed(es: seq<Execution>, p: string, part: Tokens -> int)
    requires p !in Providers(es)
    ensures SumOf(Used(p, part), es) == 0
  {
    if es != [] {
      var m := |es| - 1;
      assert es[m].tokens.Some? ==> es[m].provider in Providers(es);
      forall q | q in Providers(es[..m]) ensures q in Providers(es) {
        var i :| 0 <= i < m && es[..m][i].tokens.Some? && es[..m][i].provider == q;
        assert es[i].provider == q;
      }
      NoneUsed(es[..m], p, part);
    }
  }

  lemma NoParts(es: seq<Execution>, p: string)
    requires p !in Providers(es)
    ensures PartsOf(es, p) == NO_PARTS
  {
    NoneUsed(es, p, InputOf);
    NoneUsed(es, p, CacheReadOf);
    NoneUsed(es, p, CacheCreationOf);
    NoneUsed(es, p, OutputOf);
    NoneUsed(es, p, Total);
  }

  lemma SumOfMore(f: Execution -> int, es: seq<Execution>, e: Execution)
    ensures SumOf(f, es + [e]) == SumOf(f, es) + f(e)
  {
    assert (es + [e])[..|es|] == es;
  }

  lemma PartsOfMore(es: seq<Execution>, e: Execution, p: string)
    ensures PartsOf(es + [e], p) ==
            if e.tokens.Some? && e.provider == p then Plus(PartsOf(es, p), e.tokens.value) else PartsOf(es, p)
  {
    SumOfMore(Used(p, InputOf), es, e);
    SumOfMore(Used(p, CacheReadOf), es, e);
    SumOfMore(Used(p, CacheCreationOf), es, e);
    SumOfMore(Used(p, OutputOf), es, e);
    SumOfMore(Used(p, Total), es, e);
  }

  lemma ProvidersOfMore(es: seq<Execution>, e: Execution)
    ensures Providers(es + [e]) == Providers(es) + if e.tokens.Some? then {e.provider} else {}
  {
    var more := es + [e];
    assert more[|es|] == e && forall i :: 0 <= i < |es| ==> more[i] == es[i];
    forall p | p in Providers(es) ensures p in Providers(more) {
      var i :| 0 <= i < |es| && es[i].tokens.Some? && es[i].provider == p;
      assert more[i].provider == p;
    }
    if e.tokens.Some? {
      assert more[|es|].provider in Providers(more);
    }
  }

  /** A provider's parts begin at nothing, and an execution of it with tokens adds each of
      its parts, and their sum to the total. */
  lemma PartsAdd(es: seq<Execution>, e: Execution, p: string)
    ensures PartsOf([], p) == Parts(0, 0, 0, 0, 0)
    ensures e.tokens.None? || e.provider != p ==> PartsOf(es + [e], p) == PartsOf(es, p)
    ensures e.tokens.Some? && e.provider == p ==>
              var a, b, t := PartsOf(es, p), PartsOf(es + [e], p), e.tokens.value;
              && b.input == a.input + t.input && b.cacheRead == a.cacheRead + t.cacheRead
              && b.cacheCreation == a.cacheCreation + t.cacheCreation && b.output == a.output + t.output
              && b.total == a.total + t.input + t.cacheRead + t.cacheCreation + t.output
  {
    NoParts([], p);
    PartsOfMore(es, e, p);
    hide PartsOf;
  }

  /** The measured executions are those with tokens. */
  lemma {:induction false} MeasuredExact(es: seq<Execution>)
    ensures SumOf(Measured, es) == |set i: nat | i < |es| && es[i].tokens.Some?|
  {
    var all := set i: nat | i < |es| && es[i].tokens.Some?;
    if es == [] {
      assert all == {};
    } else {
      var n := |es| - 1;
      MeasuredExact(es[..n]);
      var fewer := set i: nat | i < n && es[..n][i].tokens.Some?;
      assert all == if es[n].tokens.Some? then fewer + {n} else fewer;
    }
  }

  ghost function ProviderTotal(es: seq<Execution>): string -> int {
    p => SumOf(Used(p, Total), es)
  }

  /** The providers' totals add up to the total of all executions. */
  lemma {:induction false} TotalsAddUp(es: seq<Execution>, ps: set<string>)
    requires Providers(es) <= ps
    ensures Sum(ProviderTotal(es), ps) == SumOf(AllTokens, es)
  {
    if es == [] {
      ZeroTotals(ps);
    } else {
      var m := |es| - 1;
      var e := es[m];
      assert es[..m] + [e] == es;
      ProvidersOfMore(es[..m], e);
      TotalsAddUp(es[..m], ps);
      if e.tokens.Some? {
        SumRemove(ProviderTotal(es), ps, e.provider);
        SumRemove(ProviderTotal(es[..m]), ps, e.provider);
        SumSame(ProviderTotal(es), ProviderTotal(es[..m]), ps - {e.provider});
      } else {
        SumSame(ProviderTotal(es), ProviderTotal(es[..m]), ps);
      }
    }
  }

  lemma {:induction false} ZeroTotals(ps: set<string>)
    ensures Sum(ProviderTotal([]), ps) == 0
    decreases ps
  {
    if ps != {} {
      var p :| p in ps;
      SumRemove(ProviderTotal([]), ps, p);
      ZeroTotals(ps - {p});
    }
  }

  /** The sum of the providers' totals. */
  method AddTotals(byProvider: map<string, Parts>, ghost es: seq<Execution>) returns (total: int)
    requires byProvider.Keys == Providers(es)
    requires forall p :: p in byProvider ==> byProvider[p].total == SumOf(Used(p, Total), es)
    ensures total == SumOf(AllTokens, es)
  {
    var rest := byProvider.Keys;
    total := 0;
    while rest != {}
      invariant rest <= byProvider.Keys
      invariant total + Sum(ProviderTotal(es), rest) == Sum(ProviderTotal(es), byProvider.Keys)
      decreases rest
    {
      var p :| p in rest;
      SumRemove(ProviderTotal(es), rest, p);
      total := total + byProvider[p].total;
      rest := rest - {p};
    }
    TotalsAddUp(es, byProvider.Keys);
  }

  lemma NoneSummed()
    ensures SumOf(Measured, []) == 0 && Providers([]) == {}
  {
  }

  lemma AllOf(byProvider: map<string, Parts>, es: seq<Execution>)
    requires forall p :: p in byProvider ==> byProvider[p] == PartsOf(es, p)
    ensures forall p :: p in byProvider ==> byProvider[p].total == SumOf(Used(p, Total), es)
  {
  }

  /** `token_sum`: executions counted, those with tokens measured and added to
      their provider's parts. */
  method SumTokens(es: seq<Execution>) returns (s: TokenSum)
    ensures IsSumOf(s, es)
  {
    var measured, byProvider := 0, map[];
    hide SumOf, PartsOf, Providers, Plus;
    NoneSummed();
    for i := 0 to |es|
      invariant measured == SumOf(Measured, es[..i])
      invariant byProvider.Keys == Providers(es[..i])
      invariant forall p :: p in byProvider ==> byProvider[p] == PartsOf(es[..i], p)
    {
      var e := es[i];
      ghost var before := es[..i];
      assert es[..i + 1] == before + [e];
      assert Measured(e) == if e.tokens.Some? then 1 else 0;
      SumOfMore(Measured, before, e);
      ProvidersOfMore(before, e);
      forall p ensures PartsOf(before + [e], p) ==
                       if e.tokens.Some? && e.provider == p then Plus(PartsOf(before, p), e.tokens.value) else PartsOf(before, p) {
        PartsOfMore(before, e, p);
      }
      if e.tokens.Some? {
        measured := measured + 1;
        if e.provider !in byProvider {
          NoParts(before, e.provider);
        }
        var parts := if e.provider in byProvider then byProvider[e.provider] else NO_PARTS;
        byProvider := byProvider[e.provider := Plus(parts, e.tokens.value)];
      }
    }
    assert es[..|es|] == es;
    AllOf(byProvider, es);
    var total := AddTotals(byProvider, es);
    s := TokenSum(|es|, measured, byProvider, total);
  }

  // ----- the boundaries partition the executions

  /** The executions at boundary `b`, in order. */
  ghost function Falling(spans: map<int, Span>, es: seq<Execution>, b: Boundary): seq<Execution> {
    if es == [] then []
    else
      var last := es[|es| - 1];
      Falling(spans, es[..|es| - 1], b) + if Place(spans, last) == b then [last] else []
  }

  /** An execution is at its boundary as often as it is given, and at no other. */
  lemma {:induction false} FallingExact(spans: map<int, Span>, es: seq<Execution>, b: Boundary, e: Execution)
    ensures multiset(Falling(spans, es, b))[e] == if Place(spans, e) == b then multiset(es)[e] else 0
  {
    if es != [] {
      var n := |es| - 1;
      FallingExact(spans, es[..n], b, e);
      var before := Falling(spans, es[..n], b);
      assert Falling(spans, es, b) == if Place(spans, es[n]) == b then before + [es[n]] else before;
      assert es == es[..n] + [es[n]];
      hide *;
    }
  }

  ghost function SumAt(f: Execution -> int, spans: map<int, Span>, es: seq<Execution>, b: Boundary): int {
    SumOf(f, Falling(spans, es, b))
  }

  lemma {:induction false} FallingOnce(f: Execution -> int, spans: map<int, Span>, es: seq<Execution>, b: Boundary)
    requires es != []
    ensures SumAt(f, spans, es, b) ==
            SumAt(f, spans, es[..|es| - 1], b) + if Place(spans, es[|es| - 1]) == b then f(es[|es| - 1]) else 0
  {
    var before := Falling(spans, es[..|es| - 1], b);
    SumOfMore(f, before, es[|es| - 1]);
    assert before + [] == before;
  }

  /** Whatever is added up over executions, the sums at the boundaries add up to the
      sum over all: each execution falls at exactly one. */
  lemma {:induction false} BoundariesConserve(f: Execution -> int, spans: map<int, Span>, es: seq<Execution>)
    ensures SumAt(f, spans, es, AdoptToReady) + SumAt(f, spans, es, CrossingAdoption)
            + SumAt(f, spans, es, CrossingReady) + SumAt(f, spans, es, BeforeAdoption)
            + SumAt(f, spans, es, AfterReady) + SumAt(f, spans, es, UnapprovedOrUnadopted) == SumOf(f, es)
  {
    if es != [] {
      BoundariesConserve(f, spans, es[..|es| - 1]);
      FallingOnce(f, spans, es, AdoptToReady);
      FallingOnce(f, spans, es, CrossingAdoption);
      FallingOnce(f, spans, es, CrossingReady);
      FallingOnce(f, spans, es, BeforeAdoption);
      FallingOnce(f, spans, es, AfterReady);
      FallingOnce(f, spans, es, UnapprovedOrUnadopted);
    }
  }

  const BOUNDARIES := {AdoptToReady, CrossingAdoption, CrossingReady, BeforeAdoption, AfterReady, UnapprovedOrUnadopted}

  lemma AllBoundaries()
    ensures forall b: Boundary :: b in BOUNDARIES
  {
    forall b: Boundary ensures b in BOUNDARIES {
      match b
      case AdoptToReady =>
      case CrossingAdoption =>
      case CrossingReady =>
      case BeforeAdoption =>
      case AfterReady =>
      case UnapprovedOrUnadopted =>
    }
  }

  /** Executions put under their boundaries. */
  method Distribute(spans: map<int, Span>, es: seq<Execution>) returns (at: map<Boundary, seq<Execution>>)
    ensures forall b :: b in at && at[b] == Falling(spans, es, b)
  {
    at := map b | b in BOUNDARIES :: [];
    AllBoundaries();
    for i := 0 to |es|
      invariant forall b :: b in at && at[b] == Falling(spans, es[..i], b)
    {
      assert es[..i + 1][..i] == es[..i];
      var place := FindPlace(spans, es[i]);
      at := at[place := at[place] + [es[i]]];
    }
    assert es[..|es|] == es;
  }

  /** `by_boundary`: the token sums of the planner turns and of the reviews at each boundary. */
  method ByBoundary(rows: seq<Row>, ctx: Context, turns: seq<Turn>, reviews: seq<Review>)
    returns (planners: map<Boundary, TokenSum>, planReviews: map<Boundary, TokenSum>)
    ensures forall b :: b in planners
              && IsSumOf(planners[b], Falling(SpansOf(rows), seq(|turns|, i requires 0 <= i < |turns| => OfTurn(rows, ctx, turns[i])), b))
    ensures forall b :: b in planReviews
              && IsSumOf(planReviews[b], Falling(SpansOf(rows), seq(|reviews|, i requires 0 <= i < |reviews| => OfReview(rows, ctx, reviews[i])), b))
  {
    var spans := SpansOf(rows);
    planners := SumBoundaries(spans, seq(|turns|, i requires 0 <= i < |turns| => OfTurn(rows, ctx, turns[i])));
    planReviews := SumBoundaries(spans, seq(|reviews|, i requires 0 <= i < |reviews| => OfReview(rows, ctx, reviews[i])));
  }

  method SumBoundaries(spans: map<int, Span>, es: seq<Execution>) returns (sums: map<Boundary, TokenSum>)
    ensures forall b :: b in sums && IsSumOf(sums[b], Falling(spans, es, b))
  {
    var at := Distribute(spans, es);
    sums := map[];
    var rest := BOUNDARIES;
    while rest != {}
      invariant rest <= BOUNDARIES && sums.Keys == BOUNDARIES - rest
      invariant forall b :: b in sums ==> IsSumOf(sums[b], Falling(spans, es, b))
      decreases rest
    {
      var b :| b in rest;
      var s := SumTokens(at[b]);
      sums := sums[b := s];
      rest := rest - {b};
    }
    AllBoundaries();
  }

  lemma {:induction false} CountIsSum(es: seq<Execution>)
    ensures SumOf(One(), es) == |es|
  {
    if es != [] {
      CountIsSum(es[..|es| - 1]);
    }
  }

  function One(): Execution -> int {
    (e: Execution) => 1
  }

  /** So the counts, the measured counts and the totals of the boundaries add up to
      those of all the executions. */
  lemma CountsConserve(spans: map<int, Span>, es: seq<Execution>, at: Boundary -> TokenSum, all: TokenSum)
    requires forall b :: IsSumOf(at(b), Falling(spans, es, b))
    requires IsSumOf(all, es)
    ensures at(AdoptToReady).executions + at(CrossingAdoption).executions + at(CrossingReady).executions
            + at(BeforeAdoption).executions + at(AfterReady).executions + at(UnapprovedOrUnadopted).executions == all.executions
    ensures at(AdoptToReady).measured + at(CrossingAdoption).measured + at(CrossingReady).measured
            + at(BeforeAdoption).measured + at(AfterReady).measured + at(UnapprovedOrUnadopted).measured == all.measured
    ensures at(AdoptToReady).total + at(CrossingAdoption).total + at(CrossingReady).total
            + at(BeforeAdoption).total + at(AfterReady).total + at(UnapprovedOrUnadopted).total == all.total
  {
    BoundariesConserve(One(), spans, es);
    BoundariesConserve(Measured, spans, es);
    BoundariesConserve(AllTokens, spans, es);
    CountIsSum(es);
    forall b {
      CountIsSum(Falling(spans, es, b));
    }
  }
}

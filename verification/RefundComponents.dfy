/**
 Migration 0046: the three legacy amounts of a refund folded into component rows, and the
 downgrade that reads them back.

 Amounts are whole tiyin, numeric(18,2) times 100. A dropped column reads NULL, which is
 also what the downgrade's ADD COLUMN fills it with.
 */
module RefundComponents {
  import opened Wrappers

  type RefundId = nat

  type RecipientId = nat

  const BUDGET: RecipientId := 1

  datatype Status = Requested | InReview | Returned | Rejected

  datatype Refund = Refund(
    status: Status, final: Option<int>, budget: Option<int>, recipient: Option<int>, other: Option<int>)

  datatype Component = Component(refund: RefundId, source: Option<RecipientId>, amount: int)

  datatype Target = Recipient | Budget | Other | Receiver

  datatype Allocation = Allocation(target: Target, recipient: Option<RecipientId>, amount: int)

  // ---------------------------------------------------------------------------
  // Component rows
  // ---------------------------------------------------------------------------

  /** The components of one refund, oldest first. */
  function Own(all: seq<Component>, id: RefundId): seq<Component> {
    if all == [] then []
    else Own(all[..|all| - 1], id) + if all[|all| - 1].refund == id then [all[|all| - 1]] else []
  }

  function From(own: seq<Component>, source: Option<RecipientId>): seq<Component> {
    if own == [] then []
    else From(own[..|own| - 1], source) + if own[|own| - 1].source == source then [own[|own| - 1]] else []
  }

  function Total(own: seq<Component>): int {
    if own == [] then 0 else Total(own[..|own| - 1]) + own[|own| - 1].amount
  }

  /** A source the legacy columns can name: the budget, or nobody. */
  predicate IsDirect(c: Component) {
    c.source == Some(BUDGET) || c.source.None?
  }

  predicate AllDirect(own: seq<Component>) {
    forall c :: c in own ==> IsDirect(c)
  }

  /** `ck_refund_components_amount_positive`. */
  predicate AllPositive(own: seq<Component>) {
    forall c :: c in own ==> c.amount > 0
  }

  lemma OwnAppends(all: seq<Component>, c: Component, id: RefundId)
    ensures Own(all + [c], id) == Own(all, id) + if c.refund == id then [c] else []
  {
    assert (all + [c])[..|all|] == all;
  }

  lemma TotalOfMore(own: seq<Component>, c: Component, added: bool)
    ensures Total(own + if added then [c] else []) == Total(own) + if added then c.amount else 0
  {
    assert (own + [c])[..|own|] == own && own + [] == own;
  }

  lemma {:induction false} TotalOfSum(a: seq<Component>, b: seq<Component>)
    ensures Total(a + b) == Total(a) + Total(b)
  {
    if b == [] {
      assert a + b == a;
    } else {
      assert (a + b)[..|a + b| - 1] == a + b[..|b| - 1];
      TotalOfSum(a, b[..|b| - 1]);
    }
  }

  lemma {:induction false} FromOfSum(a: seq<Component>, b: seq<Component>, source: Option<RecipientId>)
    ensures From(a + b, source) == From(a, source) + From(b, source)
  {
    if b == [] {
      assert a + b == a;
    } else {
      assert (a + b)[..|a + b| - 1] == a + b[..|b| - 1];
      FromOfSum(a, b[..|b| - 1], source);
    }
  }

  lemma OneRow(c: Component, source: Option<RecipientId>)
    ensures Total([c]) == c.amount && From([c], source) == if c.source == source then [c] else []
  {
    assert [c][..0] == [];
  }

  // ---------------------------------------------------------------------------
  // One refund, up and down
  // ---------------------------------------------------------------------------

  function Coalesce(amount: Option<int>): int {
    if amount.Some? then amount.value else 0
  }

  function Leshoz(r: Refund): int {
    Coalesce(r.recipient) + Coalesce(r.other)
  }

  function Legacy(r: Refund): int {
    Coalesce(r.budget) + Coalesce(r.recipient) + Coalesce(r.other)
  }

  /** `returned_needs_complete_breakdown`. */
  predicate OldCheck(r: Refund) {
    r.status == Returned ==> r.final == Some(Legacy(r))
  }

  /** The trigger as 0045 made it: no components are no objection. */
  predicate TolerantTrigger(r: Refund, own: seq<Component>) {
    r.status == Returned ==> r.final.Some? && (own == [] || Total(own) == r.final.value)
  }

  /** The trigger as 0046 tightens it. */
  predicate StrictTrigger(r: Refund, own: seq<Component>) {
    r.status == Returned ==> own != [] && r.final == Some(Total(own))
  }

  function BudgetPart(id: RefundId, r: Refund): seq<Component> {
    if Coalesce(r.budget) > 0 then [Component(id, Some(BUDGET), r.budget.value)] else []
  }

  function LeshozPart(id: RefundId, r: Refund): seq<Component> {
    if Leshoz(r) > 0 then [Component(id, None, Leshoz(r))] else []
  }

  function Backfilled(id: RefundId, r: Refund): seq<Component> {
    BudgetPart(id, r) + LeshozPart(id, r)
  }

  // The three columns dropped.
  function Bare(r: Refund): Refund {
    r.(budget := None, recipient := None, other := None)
  }

  // SQL `sum`: NULL over no rows.
  function SumOrNull(own: seq<Component>): Option<int> {
    if own == [] then None else Some(Total(own))
  }

  predicate IsTouched(own: seq<Component>) {
    exists c :: c in own && IsDirect(c)
  }

  function ReadBack(r: Refund, own: seq<Component>): Refund {
    if IsTouched(own) then
      r.(budget := SumOrNull(From(own, Some(BUDGET))), recipient := SumOrNull(From(own, None)), other := None)
    else Bare(r)
  }

  /** What the downgrade's UPDATE and its VALIDATE CONSTRAINT demand of a row. */
  predicate GoesBack(r: Refund, own: seq<Component>) {
    (IsTouched(own) ==> TolerantTrigger(r, own)) && OldCheck(ReadBack(r, own))
  }

  function AllocationUp(a: Allocation): Allocation {
    if a.target == Budget then a.(target := Receiver, recipient := Some(BUDGET)) else a
  }

  function AllocationDown(a: Allocation): Allocation {
    if a.target == Receiver && a.recipient == Some(BUDGET) then a.(target := Budget, recipient := None) else a
  }

  // ---------------------------------------------------------------------------
  // The migration as it runs
  // ---------------------------------------------------------------------------

  // The budget row of this refund is already there.
  predicate Clashes(components: seq<Component>, id: RefundId, r: Refund) {
    Coalesce(r.budget) > 0 && From(Own(components, id), Some(BUDGET)) != []
  }

  predicate NoneClashes(components: seq<Component>, refunds: map<RefundId, Refund>) {
    forall id :: id in refunds ==> !Clashes(components, id, refunds[id])
  }

  function AllBare(refunds: map<RefundId, Refund>): map<RefundId, Refund> {
    map id | id in refunds :: Bare(refunds[id])
  }

  function AllBack(refunds: map<RefundId, Refund>, components: seq<Component>): map<RefundId, Refund> {
    map id | id in refunds :: ReadBack(refunds[id], Own(components, id))
  }

  predicate AllGoBack(refunds: map<RefundId, Refund>, components: seq<Component>) {
    forall id :: id in refunds ==> GoesBack(refunds[id], Own(components, id))
  }

  function AllUp(allocations: map<nat, Allocation>): map<nat, Allocation> {
    map a | a in allocations :: AllocationUp(allocations[a])
  }

  function AllDown(allocations: map<nat, Allocation>): map<nat, Allocation> {
    map a | a in allocations :: AllocationDown(allocations[a])
  }

  // `after` is `before` with the `part` of each refund of `done` appended.
  ghost predicate Adds(before: seq<Component>, after: seq<Component>, refunds: map<RefundId, Refund>,
                       done: set<RefundId>, part: (RefundId, Refund) -> seq<Component>) {
    forall id :: Own(after, id) == Own(before, id) + if id in done && id in refunds then part(id, refunds[id]) else []
  }

  lemma OneRowMore(before: seq<Component>, rows: seq<Component>, refunds: map<RefundId, Refund>,
                   all: set<RefundId>, rest: set<RefundId>, part: (RefundId, Refund) -> seq<Component>, row: Component)
    requires row.refund in rest && rest <= all
    requires row.refund in refunds && part(row.refund, refunds[row.refund]) == [row]
    requires Adds(before, rows, refunds, all - rest, part)
    ensures Adds(before, rows + [row], refunds, all - (rest - {row.refund}), part)
  {
    forall id
      ensures Own(rows + [row], id) == Own(before, id) +
                if id in all - (rest - {row.refund}) && id in refunds then part(id, refunds[id]) else []
    {
      OwnAppends(rows, row, id);
    }
  }

  lemma BothParts(before: seq<Component>, middle: seq<Component>, after: seq<Component>, refunds: map<RefundId, Refund>)
    requires Adds(before, middle, refunds, refunds.Keys, BudgetPart)
    requires Adds(middle, after, refunds, refunds.Keys, LeshozPart)
    ensures Adds(before, after, refunds, refunds.Keys, Backfilled)
  {
  }

  class Ledger {
    var refunds: map<RefundId, Refund>
    var components: seq<Component>
    var allocations: map<nat, Allocation>
    var strict: bool  // which trigger guards updates of `refunds`

    /** A unique-constraint violation rolls everything back. */
    method Upgrade() returns (ok: bool)
      modifies this
      ensures ok <==> NoneClashes(old(components), old(refunds))
      ensures !ok ==> refunds == old(refunds) && components == old(components)
                      && allocations == old(allocations) && strict == old(strict)
      ensures ok ==> Adds(old(components), components, old(refunds), old(refunds).Keys, Backfilled)
      ensures ok ==> refunds == AllBare(old(refunds)) && allocations == AllUp(old(allocations))
      ensures ok ==> strict
    {
      var withBudget;
      ok, withBudget := InsertBudgetRows();
      if !ok { return; }
      var withLeshoz := InsertLeshozRows(withBudget);
      BothParts(components, withBudget, withLeshoz, refunds);
      components := withLeshoz;
      allocations := AllUp(allocations);
      refunds := AllBare(refunds);
      strict := true;
    }

    method InsertBudgetRows() returns (ok: bool, rows: seq<Component>)
      ensures ok <==> NoneClashes(components, refunds)
      ensures ok ==> Adds(components, rows, refunds, refunds.Keys, BudgetPart)
    {
      rows := components;
      var rest := set id | id in refunds && Coalesce(refunds[id].budget) > 0;
      ghost var all := rest;
      while rest != {}
        invariant rest <= all
        invariant Adds(components, rows, refunds, all - rest, BudgetPart)
        invariant forall id :: id in all - rest ==> !Clashes(components, id, refunds[id])
        decreases rest
      {
        var id :| id in rest;
        if From(Own(rows, id), Some(BUDGET)) != [] {  // uq_refund_components_source
          assert Clashes(components, id, refunds[id]);
          return false, rows;
        }
        var row := Component(id, Some(BUDGET), refunds[id].budget.value);
        OneRowMore(components, rows, refunds, all, rest, BudgetPart, row);
        rows := rows + [row];
        rest := rest - {id};
      }
      ok := true;
    }

    method InsertLeshozRows(rows0: seq<Component>) returns (rows: seq<Component>)
      ensures Adds(rows0, rows, refunds, refunds.Keys, LeshozPart)
    {
      rows := rows0;
      var rest := set id | id in refunds && Leshoz(refunds[id]) > 0;
      ghost var all := rest;
      while rest != {}
        invariant rest <= all
        invariant Adds(rows0, rows, refunds, all - rest, LeshozPart)
        decreases rest
      {
        var id :| id in rest;
        var row := Component(id, None, Leshoz(refunds[id]));
        OneRowMore(rows0, rows, refunds, all, rest, LeshozPart, row);
        rows := rows + [row];
        rest := rest - {id};
      }
    }

    /** A row that does not go back aborts the downgrade. */
    method Downgrade() returns (ok: bool)
      modifies this
      ensures ok <==> AllGoBack(old(refunds), old(components))
      ensures !ok ==> refunds == old(refunds) && components == old(components)
                      && allocations == old(allocations) && strict == old(strict)
      ensures ok ==> refunds == AllBack(old(refunds), old(components)) && components == []
      ensures ok ==> allocations == AllDown(old(allocations)) && !strict
    {
      var after := refunds;
      var rest := refunds.Keys;
      while rest != {}
        invariant rest <= refunds.Keys && after.Keys == refunds.Keys
        invariant forall id :: id in rest ==> after[id] == refunds[id]
        invariant forall id :: id in refunds.Keys - rest ==>
                                 after[id] == ReadBack(refunds[id], Own(components, id))
                                 && GoesBack(refunds[id], Own(components, id))
        decreases rest
      {
        var id :| id in rest;
        if !GoesBack(refunds[id], Own(components, id)) { return false; }
        after := after[id := ReadBack(refunds[id], Own(components, id))];
        rest := rest - {id};
      }
      assert after == AllBack(refunds, components);
      allocations := AllDown(allocations);
      refunds := after;
      components := [];
      strict := false;
      ok := true;
    }
  }

  // ---------------------------------------------------------------------------
  // Conservation
  // ---------------------------------------------------------------------------

  function Positive(n: int): int {
    if n > 0 then n else 0
  }

  lemma FoldTotal(id: RefundId, r: Refund)
    ensures Total(BudgetPart(id, r)) == Positive(Coalesce(r.budget)) && Total(LeshozPart(id, r)) == Positive(Leshoz(r))
    ensures Total(Backfilled(id, r)) == Positive(Coalesce(r.budget)) + Positive(Leshoz(r))
  {
    OneRow(Component(id, Some(BUDGET), Coalesce(r.budget)), None);
    OneRow(Component(id, None, Leshoz(r)), None);
    TotalOfSum(BudgetPart(id, r), LeshozPart(id, r));
  }

  lemma FoldFrom(id: RefundId, r: Refund)
    ensures From(Backfilled(id, r), Some(BUDGET)) == BudgetPart(id, r)
    ensures From(Backfilled(id, r), None) == LeshozPart(id, r)
  {
    var b, l := Component(id, Some(BUDGET), Coalesce(r.budget)), Component(id, None, Leshoz(r));
    FromOfSum(BudgetPart(id, r), LeshozPart(id, r), Some(BUDGET));
    FromOfSum(BudgetPart(id, r), LeshozPart(id, r), None);
    OneRow(b, None);
    OneRow(b, Some(BUDGET));
    OneRow(l, None);
    OneRow(l, Some(BUDGET));
  }

  lemma FoldIsDirect(id: RefundId, r: Refund)
    ensures IsTouched(Backfilled(id, r)) <==> Backfilled(id, r) != []
  {
    var own := Backfilled(id, r);
    assert own != [] ==> own[0] in own && IsDirect(own[0]);
  }

  /** What the schema does not say of the legacy columns. */
  predicate NoNegativePart(r: Refund) {
    Coalesce(r.budget) >= 0 && Leshoz(r) >= 0
  }

  function FoldedTotal(r: Refund): int {
    Positive(Coalesce(r.budget)) + Positive(Leshoz(r))
  }

  /** The fold keeps a refund's total if and only if neither part is negative. */
  lemma FoldKeepsTotal(id: RefundId, r: Refund)
    ensures Total(Backfilled(id, r)) == FoldedTotal(r)
    ensures Total(Backfilled(id, r)) == Legacy(r) <==> NoNegativePart(r)
  {
    FoldTotal(id, r);
  }

  // What one source gave back.
  function Given(own: seq<Component>, source: Option<RecipientId>): int {
    if own == [] then 0
    else Given(own[..|own| - 1], source) + if own[|own| - 1].source == source then own[|own| - 1].amount else 0
  }

  lemma {:induction false} GivenIsTotal(own: seq<Component>, source: Option<RecipientId>)
    ensures Given(own, source) == Total(From(own, source))
  {
    if own != [] {
      GivenIsTotal(own[..|own| - 1], source);
      TotalOfMore(From(own[..|own| - 1], source), own[|own| - 1], own[|own| - 1].source == source);
    }
  }

  /** Each part goes to its own source, the budget amount to the budget recipient and the sum of the
      other two to nobody by name, when it is positive; no other source and no empty row appears. */
  lemma FoldBySource(id: RefundId, r: Refund, other: RecipientId)
    ensures Given(Backfilled(id, r), Some(BUDGET)) == Positive(Coalesce(r.budget))
    ensures Given(Backfilled(id, r), None) == Positive(Coalesce(r.recipient) + Coalesce(r.other))
    ensures other != BUDGET ==> Given(Backfilled(id, r), Some(other)) == 0
    ensures forall c :: c in Backfilled(id, r) ==> c.refund == id && c.amount > 0
  {
    FoldFromSource(id, r, Some(BUDGET));
    FoldFromSource(id, r, None);
    FoldFromSource(id, r, Some(other));
    FoldedRows(id, r);
  }

  lemma FoldFromSource(id: RefundId, r: Refund, source: Option<RecipientId>)
    ensures Given(Backfilled(id, r), source) ==
            if source == Some(BUDGET) then Positive(Coalesce(r.budget))
            else if source.None? then Positive(Leshoz(r)) else 0
  {
    var own := Backfilled(id, r);
    GivenIsTotal(own, source);
    FoldFrom(id, r);
    FoldTotal(id, r);
    if source.Some? && source != Some(BUDGET) {
      FoldedRows(id, r);
      NoneFromElsewhere(own, source);
    }
  }

  lemma FoldedRows(id: RefundId, r: Refund)
    ensures forall c :: c in Backfilled(id, r) ==> c.refund == id && c.amount > 0 && IsDirect(c)
  {
  }

  lemma {:induction false} NoneFromElsewhere(own: seq<Component>, source: Option<RecipientId>)
    requires forall c :: c in own ==> c.source != source
    ensures From(own, source) == []
  {
    if own != [] {
      assert own[|own| - 1] in own;
      NoneFromElsewhere(own[..|own| - 1], source);
    }
  }

  /** The downgrade gives each amount back to the column of its source. */
  lemma ReadBackBySource(r: Refund, own: seq<Component>)
    ensures Coalesce(ReadBack(r, own).budget) == Given(own, Some(BUDGET))
    ensures Coalesce(ReadBack(r, own).recipient) == Given(own, None)
    ensures Coalesce(ReadBack(r, own).other) == 0
    ensures ReadBack(r, own).status == r.status && ReadBack(r, own).final == r.final
  {
    GivenIsTotal(own, Some(BUDGET));
    GivenIsTotal(own, None);
    if !IsTouched(own) { UntouchedHasNoDirect(own); }
  }

  // At most one component names each recipient: `uq_refund_components_source`.
  predicate IsUnique(own: seq<Component>) {
    forall i, j :: 0 <= i < j < |own| && own[i].source.Some? ==> own[i].source != own[j].source
  }

  lemma {:induction false} FromIsPresent(own: seq<Component>, source: Option<RecipientId>)
    ensures From(own, source) != [] <==> exists i :: 0 <= i < |own| && own[i].source == source
  {
    if own != [] {
      var n := |own| - 1;
      FromIsPresent(own[..n], source);
      if i :| 0 <= i < |own| && own[i].source == source && i < n { assert own[..n][i].source == source; }
      if i :| 0 <= i < n && own[..n][i].source == source { assert own[i].source == source; }
    }
  }

  /** The upgrade fails exactly where its rows would give a refund two components of one recipient. */
  lemma ClashIsExact(components: seq<Component>, id: RefundId, r: Refund)
    requires IsUnique(Own(components, id))
    ensures Clashes(components, id, r) <==> !IsUnique(Own(components, id) + Backfilled(id, r))
  {
    var own := Own(components, id);
    var all := own + Backfilled(id, r);
    FromIsPresent(own, Some(BUDGET));
    if Clashes(components, id, r) {
      var i :| 0 <= i < |own| && own[i].source == Some(BUDGET);
      assert all[i].source == all[|own|].source == Some(BUDGET);
    } else {
      forall i, j | 0 <= i < j < |all| && all[i].source.Some? ensures all[i].source != all[j].source
      {
        if j < |own| {
          assert own[i].source != own[j].source;
        } else if i < |own| {
          assert all[i] == own[i] && all[j] == Backfilled(id, r)[j - |own|];
        }
      }
    }
  }

  // A folded refund, read back.
  lemma FoldReadBack(id: RefundId, r: Refund)
    ensures var own := Backfilled(id, r);
            && (own == [] <==> Coalesce(r.budget) <= 0 && Leshoz(r) <= 0)
            && ReadBack(Bare(r), own) == Refund(r.status, r.final, if Coalesce(r.budget) > 0 then r.budget else None,
                                                if Leshoz(r) > 0 then Some(Leshoz(r)) else None, None)
  {
    FoldTotal(id, r);
    FoldFrom(id, r);
    FoldIsDirect(id, r);
  }

  /** Of the returned refunds the old CHECK let through, exactly those with a positive final
      amount and no negative part satisfy the tightened trigger after the fold. */
  lemma ReturnedMeetsStrictTrigger(id: RefundId, r: Refund)
    requires r.status == Returned && OldCheck(r)
    ensures StrictTrigger(Bare(r), Backfilled(id, r)) <==> NoNegativePart(r) && r.final.value > 0
  {
    FoldReadBack(id, r);
    FoldKeepsTotal(id, r);
  }

  // A returned refund's final amount is what the fold kept of it.
  predicate FoldAddsUp(r: Refund) {
    r.status == Returned ==> r.final == Some(FoldedTotal(r))
  }

  // Read back with what the fold kept, so with the whole total exactly when no part was
  // negative, and folding the same again.
  ghost predicate Restored(id: RefundId, before: Refund, back: Refund, own: seq<Component>) {
    && back.status == before.status && back.final == before.final
    && Legacy(back) == FoldedTotal(before) && (Legacy(back) == Legacy(before) <==> NoNegativePart(before))
    && Backfilled(id, back) == own
  }

  /** Down after up: the refund goes back exactly when its final amount is what the fold kept,
      which without a negative part is the old CHECK; its total survives exactly when no part
      was negative; and going up again makes the same components. */
  lemma UpThenDown(id: RefundId, r: Refund)
    ensures GoesBack(Bare(r), Backfilled(id, r)) <==> FoldAddsUp(r)
    ensures NoNegativePart(r) ==> (FoldAddsUp(r) <==> OldCheck(r))
    ensures Restored(id, r, ReadBack(Bare(r), Backfilled(id, r)), Backfilled(id, r))
  {
    FoldReadBack(id, r);
    FoldKeepsTotal(id, r);
    SameFold(id, r, ReadBack(Bare(r), Backfilled(id, r)));
  }

  lemma SameFold(id: RefundId, r: Refund, back: Refund)
    requires Coalesce(back.budget) == Positive(Coalesce(r.budget)) && Leshoz(back) == Positive(Leshoz(r))
    ensures Backfilled(id, back) == Backfilled(id, r)
  {
  }

  lemma RefundRoundTrip(refunds: map<RefundId, Refund>, after: seq<Component>, id: RefundId)
    requires Adds([], after, refunds, refunds.Keys, Backfilled) && id in refunds
    ensures GoesBack(Bare(refunds[id]), Own(after, id)) <==> FoldAddsUp(refunds[id])
    ensures Restored(id, refunds[id], ReadBack(Bare(refunds[id]), Own(after, id)), Own(after, id))
  {
    assert Own(after, id) == Backfilled(id, refunds[id]);
    UpThenDown(id, refunds[id]);
  }

  /** The whole ledger, from a database without components: what `Upgrade` leaves is accepted
      by `Downgrade` exactly when every returned refund's final amount is what the fold kept. */
  lemma LedgerRoundTrip(refunds: map<RefundId, Refund>, after: seq<Component>)
    requires Adds([], after, refunds, refunds.Keys, Backfilled)
    ensures AllGoBack(AllBare(refunds), after) <==> forall id :: id in refunds ==> FoldAddsUp(refunds[id])
    ensures var back := AllBack(AllBare(refunds), after);
            && back.Keys == refunds.Keys
            && forall id :: id in refunds ==> Restored(id, refunds[id], back[id], Own(after, id))
  {
    var bare := AllBare(refunds);
    forall id | id in refunds
      ensures GoesBack(bare[id], Own(after, id)) <==> FoldAddsUp(refunds[id])
      ensures Restored(id, refunds[id], AllBack(bare, after)[id], Own(after, id))
    {
      RefundRoundTrip(refunds, after, id);
    }
  }

  /** The row itself comes back exactly when `other` was NULL and each of the two other
      amounts NULL or positive. */
  lemma RowComesBack(id: RefundId, r: Refund)
    ensures ReadBack(Bare(r), Backfilled(id, r)) == r <==>
            && r.other.None?
            && (r.budget.None? || r.budget.value > 0)
            && (r.recipient.None? || r.recipient.value > 0)
  {
    FoldReadBack(id, r);
  }

  // ---------------------------------------------------------------------------
  // Downgrading a ledger that kept taking refunds
  // ---------------------------------------------------------------------------

  // What other receivers gave back.
  function Others(own: seq<Component>): seq<Component> {
    if own == [] then []
    else Others(own[..|own| - 1]) + if IsDirect(own[|own| - 1]) then [] else [own[|own| - 1]]
  }

  lemma {:induction false} TotalSplits(own: seq<Component>)
    ensures Total(own) == Total(From(own, Some(BUDGET))) + Total(From(own, None)) + Total(Others(own))
  {
    if own == [] {
    } else {
      var rest, c := own[..|own| - 1], own[|own| - 1];
      TotalSplits(rest);
      TotalOfMore(From(rest, Some(BUDGET)), c, c.source == Some(BUDGET));
      TotalOfMore(From(rest, None), c, c.source == None);
      TotalOfMore(Others(rest), c, !IsDirect(c));
    }
  }

  lemma {:induction false} OthersArePositive(own: seq<Component>)
    requires AllPositive(own)
    ensures Total(Others(own)) >= 0 && (Total(Others(own)) == 0 <==> AllDirect(own))
    ensures AllDirect(own) <==> Others(own) == []
  {
    if own == [] {
    } else {
      var rest, c := own[..|own| - 1], own[|own| - 1];
      assert own == rest + [c];
      OthersArePositive(rest);
      TotalOfMore(Others(rest), c, !IsDirect(c));
    }
  }

  lemma {:induction false} UntouchedHasNoDirect(own: seq<Component>)
    requires !IsTouched(own)
    ensures From(own, Some(BUDGET)) == [] && From(own, None) == []
  {
    if own == [] {
    } else {
      assert own[|own| - 1] in own;
      UntouchedHasNoDirect(own[..|own| - 1]);
    }
  }

  /** What the downgrade writes back is the components' total less the other receivers'. */
  lemma ReadBackLosesOthers(r: Refund, own: seq<Component>)
    ensures Legacy(ReadBack(r, own)) == Total(own) - Total(Others(own))
  {
    TotalSplits(own);
    if !IsTouched(own) { UntouchedHasNoDirect(own); }
  }

  /** The downgrade keeps a refund's total if and only if no other receiver gave anything
      back: it deletes those rows, whatever the status. */
  lemma DowngradeKeepsTotal(r: Refund, own: seq<Component>)
    requires AllPositive(own)
    ensures Legacy(ReadBack(r, own)) == Total(own) <==> AllDirect(own)
  {
    ReadBackLosesOthers(r, own);
    OthersArePositive(own);
  }

  /** A ledger goes down if and only if the components of every returned refund add up to its final
      amount and none is another receiver's; or, the amount being zero, if all of them are. */
  lemma DowngradeAccepts(refunds: map<RefundId, Refund>, components: seq<Component>)
    requires forall id :: id in refunds ==> AllPositive(Own(components, id))
    ensures AllGoBack(refunds, components) <==>
            forall id :: id in refunds && refunds[id].status == Returned ==>
                           var final, own := refunds[id].final, Own(components, id);
                           || (final == Some(Total(own)) && AllDirect(own))
                           || (final == Some(0) && forall c :: c in own ==> !IsDirect(c))
  {
    forall id | id in refunds
      ensures var final, own := refunds[id].final, Own(components, id);
              GoesBack(refunds[id], own) <==>
              (refunds[id].status == Returned ==>
                 || (final == Some(Total(own)) && AllDirect(own))
                 || (final == Some(0) && forall c :: c in own ==> !IsDirect(c)))
    {
      GoesBackExactly(refunds[id], Own(components, id));
    }
  }

  lemma GoesBackExactly(r: Refund, own: seq<Component>)
    requires AllPositive(own)
    ensures GoesBack(r, own) <==>
            (r.status == Returned ==>
               || (r.final == Some(Total(own)) && AllDirect(own))
               || (r.final == Some(0) && forall c :: c in own ==> !IsDirect(c)))
  {
    ReadBackLosesOthers(r, own);
    OthersArePositive(own);
    if IsTouched(own) {
      assert own != [];
    } else if own != [] {
      assert own[0] in own;
      UntouchedHasNoDirect(own);
      TotalSplits(own);
    }
  }

  // ---------------------------------------------------------------------------
  // Allocations
  // ---------------------------------------------------------------------------

  /** The allocations come back from up and down unless one was a receiver's share already
      paid to the budget recipient, or a budget share with a recipient. */
  lemma AllocationsComeBack(allocations: map<nat, Allocation>)
    ensures AllDown(AllUp(allocations)) == allocations <==>
            forall a :: a in allocations ==>
                          && !(allocations[a].target == Receiver && allocations[a].recipient == Some(BUDGET))
                          && !(allocations[a].target == Budget && allocations[a].recipient.Some?)
    ensures AllUp(allocations).Keys == AllDown(allocations).Keys == allocations.Keys
    ensures forall a :: a in allocations ==>
                          AllUp(allocations)[a] ==
                          if allocations[a].target == Budget
                          then Allocation(Receiver, Some(BUDGET), allocations[a].amount) else allocations[a]
  {
  }

  /** A negative recipient amount beside a larger budget amount: the old CHECK accepts the
      refund, and the fold loses the difference. */
  lemma NegativeAmountBreaksFold()
    ensures exists r: Refund :: OldCheck(r) && r.status == Returned
                                && !StrictTrigger(Bare(r), Backfilled(0, r))
  {
    var r := Refund(Returned, Some(500), Some(700), Some(-200), None);
    FoldTotal(0, r);
    assert OldCheck(r);
    assert !StrictTrigger(Bare(r), Backfilled(0, r));
  }
}

/**
 * The pesticide tank and the spray policies. Every tank level and every dose the
 * session uses is a multiple of 0.5, so levels and doses are counted exactly in
 * half-units: 100.0 is 200, a 2.5 dose is 5, a 1.5 dose is 3.
 */
module Pesticide {
  import opened Field

  /** The level of a fresh session's tank (100.0). */
  const FullTank: nat := 200
  /** Per-plot dose of the autonomous cycle's targeted spray (2.5). */
  const CycleDose: nat := 5
  /** Per-plot dose of the blanket spray (1.5). */
  const BlanketDose: nat := 3

  /**
   * One spray's debit: the tank loses the dose, floored at empty. Nothing checks
   * beforehand that the tank holds the dose.
   */
  function Debit(tank: nat, amount: nat): (r: nat)
    ensures r <= tank
    ensures tank <= r + amount
    ensures r == 0 || r + amount == tank
  {
    if amount <= tank then tank - amount else 0
  }

  /** Two debits in a row cost what one debit of their sum costs, so their order is irrelevant. */
  lemma DebitCompose(tank: nat, a: nat, b: nat)
    ensures Debit(Debit(tank, a), b) == Debit(tank, a + b)
    ensures Debit(Debit(tank, a), b) == Debit(Debit(tank, b), a)
  {
  }

  /**
   * How many blanket doses in a row find the tank not yet empty: the tank is
   * still above zero before dose n + 1 exactly when n doses leave something.
   */
  function Reach(tank: nat): (n: nat)
    ensures BlanketDose * n >= tank
    ensures n > 0 ==> BlanketDose * (n - 1) < tank
  {
    (tank + BlanketDose - 1) / BlanketDose
  }

  /**
   * Cell states a blanket spray's row-major pass leaves on n plots, starting with
   * the given tank: a plot reached while the tank is above zero is sprayed (and
   * debited, floored at zero), any other plot reverts to healthy.
   */
  function BlanketOutcome(tank: nat, n: nat): (cells: seq<Cell>)
    ensures |cells| == n
    ensures forall i :: 0 <= i < n ==> cells[i] == Sprayed || cells[i] == Healthy
    decreases n
  {
    if n == 0 then []
    else if tank > 0 then [Sprayed] + BlanketOutcome(Debit(tank, BlanketDose), n - 1)
    else [Healthy] + BlanketOutcome(tank, n - 1)
  }

  /** A blanket spray treats exactly the first Reach(tank) plots of the pass. */
  lemma {:induction false} BlanketOutcomeShape(tank: nat, n: nat, i: nat)
    requires i < n
    ensures BlanketOutcome(tank, n)[i] == if i < Reach(tank) then Sprayed else Healthy
    decreases n
  {
    if tank > 0 && i > 0 {
      var rest := Debit(tank, BlanketDose);
      BlanketOutcomeShape(rest, n - 1, i - 1);
      assert Reach(rest) == Reach(tank) - 1;
    } else if tank == 0 && i > 0 {
      BlanketOutcomeShape(tank, n - 1, i - 1);
    }
  }

  /** Number of plots a blanket spray over the whole grid treats. */
  function BlanketTreated(tank: nat): (n: nat)
    ensures n <= GridSize
    ensures n < GridSize ==> Debit(tank, BlanketDose * n) == 0
    ensures n > 0 ==> BlanketDose * (n - 1) < tank
  {
    if Reach(tank) < GridSize then Reach(tank) else GridSize
  }

  /** A full tank treats the whole field with room to spare. */
  lemma FullTankTreatsAll()
    ensures BlanketTreated(FullTank) == GridSize
    ensures Debit(FullTank, BlanketDose * GridSize) == 152
  {
  }

  /** A tank holding k blanket doses, k below the plot count, treats exactly k plots. */
  lemma ExactDosesTreatExactly(k: nat)
    requires k < GridSize
    ensures BlanketTreated(BlanketDose * k) == k
  {
  }

  /**
   * A tank at 10.0 (20 half-units) treats seven plots, not six: after six doses
   * 1.0 is left, the tank is still above zero, and the seventh dose empties it.
   */
  lemma PartialDoseStillSprays()
    ensures BlanketTreated(20) == 7
    ensures Debit(20, BlanketDose * 7) == 0
    ensures BlanketOutcome(20, GridSize)[6] == Sprayed
    ensures BlanketOutcome(20, GridSize)[7] == Healthy
  {
    BlanketOutcomeShape(20, GridSize, 6);
    BlanketOutcomeShape(20, GridSize, 7);
  }
}

/**
 * One operator session: the grid of plots, the tank, the treated-plots counter,
 * the system status and the event log, updated in place by the operations the
 * dashboard triggers.
 */
module Session {
  import opened Field
  import opened Pesticide
  import opened EventLog

  /** The system status the dashboard shows. */
  datatype Status = Idle | Scanning | Spraying

  class FieldSession {
    const grid: array2<Cell>
    /** Tank level in half-units. */
    var tank: nat
    var sprayedCount: nat
    var status: Status
    var log: seq<Event>

    ghost predicate Shaped() {
      grid.Length0 == Rows && grid.Length1 == Cols
    }

    /**
     * Between operations: the tank is within its capacity, the log within its
     * bound, the system idle, and every plot in a resting state.
     */
    ghost predicate Valid()
      reads this, grid
    {
      && Shaped()
      && tank <= FullTank
      && |log| <= MaxEntries
      && status == Idle
      && forall i, j :: 0 <= i < Rows && 0 <= j < Cols ==> Settled(grid[i, j])
    }

    /** A fresh session: every plot healthy, a full tank, nothing treated, one log entry. */
    constructor ()
      ensures Valid() && fresh(grid)
      ensures forall i, j :: 0 <= i < Rows && 0 <= j < Cols ==> grid[i, j] == Healthy
      ensures tank == FullTank && sprayedCount == 0 && status == Idle
      ensures log == [SystemInitialized]
    {
      grid := new Cell[Rows, Cols]((i, j) => Healthy);
      tank := FullTank;
      sprayedCount := 0;
      log := [];
      status := Idle;
      new;
      AddToLog(SystemInitialized);
    }

    /** Prepends an entry and drops the oldest one once the log outgrows its bound. */
    method AddToLog(e: Event)
      modifies this`log
      ensures log == Record(old(log), e)
    {
      log := [e] + log;
      if |log| > MaxEntries {
        log := log[..|log| - 1];
      }
    }

    /**
     * A click on the field map: clicked is the tile index, or -1 when nothing was
     * clicked. The clicked plot becomes diseased if it was healthy or sprayed.
     */
    method Click(clicked: int)
      requires Valid()
      requires -1 <= clicked < GridSize
      modifies this`log, grid
      ensures Valid()
      ensures tank == old(tank) && sprayedCount == old(sprayedCount)
      ensures clicked == -1 ==> log == old(log)
      ensures clicked == -1 ==> forall i, j :: 0 <= i < Rows && 0 <= j < Cols ==> grid[i, j] == old(grid[i, j])
      ensures clicked >= 0 ==>
        var p := CellOf(clicked);
        && grid[p.row, p.col] == Marked(old(grid[p.row, p.col]))
        && (forall i, j :: 0 <= i < Rows && 0 <= j < Cols && Coord(i, j) != p ==> grid[i, j] == old(grid[i, j]))
        && log == if Markable(old(grid[p.row, p.col])) then Record(old(log), DiseaseMarked(p)) else old(log)
    {
      if clicked > -1 {
        var p := CellOf(clicked);
        if Markable(grid[p.row, p.col]) {
          grid[p.row, p.col] := Diseased;
          AddToLog(DiseaseMarked(p));
        }
      }
    }

    /**
     * The autonomous cycle. The randomly drawn set of diseased plots is a
     * parameter: 3 to 5 distinct plots. Every plot is scanned in row-major order,
     * then every diseased plot is sprayed with the cycle dose, the tank floored
     * at zero.
     */
    method AutonomousCycle(diseased: set<Coord>)
      requires Valid()
      requires 3 <= |diseased| <= 5
      requires forall p :: p in diseased ==> InGrid(p)
      modifies this, grid
      ensures Valid()
      ensures forall i, j :: 0 <= i < Rows && 0 <= j < Cols ==>
        grid[i, j] == if Coord(i, j) in diseased then Sprayed else Healthy
      ensures sprayedCount == old(sprayedCount) + |diseased|
      ensures tank == Debit(old(tank), CycleDose * |diseased|)
      ensures log == Record(Record(Record(Record(old(log),
        ScanInitiated), ScanComplete(|diseased|)), TargetedSprayInitiated), GridsTreated(|diseased|))
    {
      status := Status.Scanning;
      AddToLog(ScanInitiated);
      Scan(diseased);
      AddToLog(ScanComplete(|diseased|));
      status := Status.Spraying;
      AddToLog(TargetedSprayInitiated);
      StartSpraying(diseased);
      FinishSpraying(diseased);
      AddToLog(GridsTreated(|diseased|));
      status := Idle;
    }

    /** The scan pass: in row-major order, each plot becomes diseased if drawn, healthy otherwise. */
    method Scan(diseased: set<Coord>)
      requires Shaped()
      modifies grid
      ensures forall i, j :: 0 <= i < Rows && 0 <= j < Cols ==>
        grid[i, j] == if Coord(i, j) in diseased then Diseased else Healthy
    {
      var r := 0;
      while r < Rows
        invariant 0 <= r <= Rows
        invariant forall i, j :: 0 <= i < r && 0 <= j < Cols ==>
          grid[i, j] == if Coord(i, j) in diseased then Diseased else Healthy
      {
        var c := 0;
        while c < Cols
          invariant 0 <= c <= Cols
          invariant forall i, j :: 0 <= i < r && 0 <= j < Cols ==>
            grid[i, j] == if Coord(i, j) in diseased then Diseased else Healthy
          invariant forall j :: 0 <= j < c ==>
            grid[r, j] == if Coord(r, j) in diseased then Diseased else Healthy
        {
          grid[r, c] := if Coord(r, c) in diseased then Diseased else Healthy;
          c := c + 1;
        }
        r := r + 1;
      }
    }

    /**
     * The diseased plots all go to Spraying. They are visited in the unspecified
     * order of a set; every other plot keeps its state.
     */
    method StartSpraying(diseased: set<Coord>)
      requires Shaped()
      requires forall p :: p in diseased ==> InGrid(p)
      modifies grid
      ensures forall i, j :: 0 <= i < Rows && 0 <= j < Cols ==>
        grid[i, j] == if Coord(i, j) in diseased then Cell.Spraying else old(grid[i, j])
    {
      var todo := diseased;
      while todo != {}
        invariant todo <= diseased
        invariant forall i, j :: 0 <= i < Rows && 0 <= j < Cols ==>
          grid[i, j] == if Coord(i, j) in diseased - todo then Cell.Spraying else old(grid[i, j])
        decreases |todo|
      {
        var p :| p in todo;
        grid[p.row, p.col] := Cell.Spraying;
        todo := todo - {p};
      }
    }

    /**
     * Each diseased plot, visited in the unspecified order of a set, ends Sprayed,
     * adds one to the counter and debits one cycle dose floored at zero. The
     * resulting state is the same whatever order the set yields.
     */
    method FinishSpraying(diseased: set<Coord>)
      requires Shaped()
      requires forall p :: p in diseased ==> InGrid(p)
      modifies this`tank, this`sprayedCount, grid
      ensures forall i, j :: 0 <= i < Rows && 0 <= j < Cols ==>
        grid[i, j] == if Coord(i, j) in diseased then Sprayed else old(grid[i, j])
      ensures sprayedCount == old(sprayedCount) + |diseased|
      ensures tank == Debit(old(tank), CycleDose * |diseased|)
    {
      var todo := diseased;
      ghost var done := 0;
      while todo != {}
        invariant todo <= diseased
        invariant done + |todo| == |diseased|
        invariant sprayedCount == old(sprayedCount) + done
        invariant tank == Debit(old(tank), CycleDose * done)
        invariant forall i, j :: 0 <= i < Rows && 0 <= j < Cols ==>
          grid[i, j] == if Coord(i, j) in diseased - todo then Sprayed else old(grid[i, j])
        decreases |todo|
      {
        var p :| p in todo;
        grid[p.row, p.col] := Sprayed;
        sprayedCount := sprayedCount + 1;
        DebitCompose(old(tank), CycleDose * done, CycleDose);
        tank := Debit(tank, CycleDose);
        todo := todo - {p};
        done := done + 1;
      }
    }

    /**
     * Manual spray of one plot with an operator-chosen dose. The tank is debited
     * floored at zero whether or not it holds the dose.
     */
    method ManualSpray(target: Coord, amount: nat)
      requires Valid()
      requires InGrid(target)
      modifies this, grid
      ensures Valid()
      ensures grid[target.row, target.col] == Sprayed
      ensures forall i, j :: 0 <= i < Rows && 0 <= j < Cols && Coord(i, j) != target ==>
        grid[i, j] == old(grid[i, j])
      ensures tank == Debit(old(tank), amount)
      ensures sprayedCount == old(sprayedCount) + 1
      ensures log == Record(Record(old(log), ManualSprayStarted(target, amount)), GridTreated(target))
    {
      status := Status.Spraying;
      AddToLog(ManualSprayStarted(target, amount));
      grid[target.row, target.col] := Cell.Spraying;
      grid[target.row, target.col] := Sprayed;
      tank := Debit(tank, amount);
      sprayedCount := sprayedCount + 1;
      AddToLog(GridTreated(target));
      status := Idle;
    }

    /**
     * Blanket spray: every plot goes to Spraying, then a row-major pass sprays
     * while the tank is above zero and reverts the remaining plots to Healthy.
     * A tank-empty warning is logged when not every plot was treated.
     */
    method BlanketSpray()
      requires Valid()
      modifies this, grid
      ensures Valid()
      ensures forall i, j :: 0 <= i < Rows && 0 <= j < Cols ==>
        grid[i, j] == BlanketOutcome(old(tank), GridSize)[FlatIndex(Coord(i, j))]
      ensures forall i, j :: 0 <= i < Rows && 0 <= j < Cols ==>
        grid[i, j] == if i * Cols + j < BlanketTreated(old(tank)) then Sprayed else Healthy
      ensures sprayedCount == old(sprayedCount) + BlanketTreated(old(tank))
      ensures tank == Debit(old(tank), BlanketDose * BlanketTreated(old(tank)))
      ensures
        var started := Record(old(log), BlanketSprayInitiated);
        var n := BlanketTreated(old(tank));
        log == Record(if n < GridSize then Record(started, TankEmpty(n)) else started, BlanketSprayComplete)
    {
      status := Status.Spraying;
      AddToLog(BlanketSprayInitiated);
      MarkAllSpraying();
      var treated := SprayRowMajor();
      if treated < GridSize {
        AddToLog(TankEmpty(treated));
      }
      AddToLog(BlanketSprayComplete);
      status := Idle;
      forall i, j | 0 <= i < Rows && 0 <= j < Cols
        ensures grid[i, j] == BlanketOutcome(old(tank), GridSize)[FlatIndex(Coord(i, j))]
      {
        BlanketOutcomeShape(old(tank), GridSize, FlatIndex(Coord(i, j)));
      }
    }

    /** Every plot goes to Spraying, row by row. */
    method MarkAllSpraying()
      requires Shaped()
      modifies grid
      ensures forall i, j :: 0 <= i < Rows && 0 <= j < Cols ==> grid[i, j] == Cell.Spraying
    {
      var r := 0;
      while r < Rows
        invariant 0 <= r <= Rows
        invariant forall i, j :: 0 <= i < r && 0 <= j < Cols ==> grid[i, j] == Cell.Spraying
      {
        var c := 0;
        while c < Cols
          invariant 0 <= c <= Cols
          invariant forall i, j :: 0 <= i < r && 0 <= j < Cols ==> grid[i, j] == Cell.Spraying
          invariant forall j :: 0 <= j < c ==> grid[r, j] == Cell.Spraying
        {
          grid[r, c] := Cell.Spraying;
          c := c + 1;
        }
        r := r + 1;
      }
    }

    /**
     * The blanket pass proper: in row-major order a plot is sprayed while the
     * tank is above zero (one blanket dose, floored at zero) and reverted to
     * Healthy otherwise. Returns the number of plots actually sprayed.
     */
    method SprayRowMajor() returns (treated: nat)
      requires Shaped()
      modifies this`tank, this`sprayedCount, grid
      ensures treated == BlanketTreated(old(tank))
      ensures sprayedCount == old(sprayedCount) + treated
      ensures tank == Debit(old(tank), BlanketDose * treated)
      ensures forall i, j :: 0 <= i < Rows && 0 <= j < Cols ==>
        grid[i, j] == if i * Cols + j < treated then Sprayed else Healthy
    {
      ghost var reach := Reach(tank);
      treated := 0;
      var r := 0;
      while r < Rows
        invariant 0 <= r <= Rows
        invariant treated == Min(r * Cols, reach)
        invariant tank == Debit(old(tank), BlanketDose * treated)
        invariant sprayedCount == old(sprayedCount) + treated
        invariant forall i, j :: 0 <= i < r && 0 <= j < Cols ==>
          grid[i, j] == if i * Cols + j < reach then Sprayed else Healthy
      {
        var c := 0;
        while c < Cols
          invariant 0 <= c <= Cols
          invariant treated == Min(r * Cols + c, reach)
          invariant tank == Debit(old(tank), BlanketDose * treated)
          invariant sprayedCount == old(sprayedCount) + treated
          invariant forall i, j :: 0 <= i < r && 0 <= j < Cols ==>
            grid[i, j] == if i * Cols + j < reach then Sprayed else Healthy
          invariant forall j :: 0 <= j < c ==>
            grid[r, j] == if r * Cols + j < reach then Sprayed else Healthy
        {
          if tank > 0 {
            grid[r, c] := Sprayed;
            DebitCompose(old(tank), BlanketDose * treated, BlanketDose);
            tank := Debit(tank, BlanketDose);
            sprayedCount := sprayedCount + 1;
            treated := treated + 1;
          } else {
            grid[r, c] := Healthy;
          }
          c := c + 1;
        }
        r := r + 1;
      }
    }
  }
}

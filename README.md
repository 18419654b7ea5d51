# Green Protect field simulation, in Dafny

Green Protect is a Streamlit dashboard for a simulated crop-spraying agent. The
one piece of logic under its UI is a field simulation held in the session state:

- a 4 x 4 grid of plots, each Healthy, Diseased, Spraying, Scanning or Sprayed;
- a pesticide tank;
- a counter of treated plots;
- a system status;
- an event log, newest entry first, capped at 20 entries.

The operations are session initialisation, manual disease marking by clicking a
tile, the autonomous scan-and-spray cycle, manual spraying of one plot, and the
blanket spray of the whole field. Each one updates this state step by step.

This project models that state machine as a class, `Session.FieldSession`:

- the grid is an `array2<Cell>`;
- the log is a `seq<Event>`;
- each operation is a method, with loops where the source loops (the scan, the
  passes over the drawn set, the blanket passes), proved against specification
  functions in `Field`, `Pesticide` and `EventLog`.

Tank levels and doses are floats in the source, but all of them are multiples of
0.5: the initial 100.0, the 2.5 cycle dose, the 1.5 blanket dose and the slider
range 1.0 to 10.0 in steps of 0.5. So the model counts the tank exactly, in
half-units: 100.0 is 200, 2.5 is 5, 1.5 is 3, and the slider spans 2 to 20.

Files:

- `field.dfy`: cell states, coordinates, tile index to plot, the marking rule.
- `pesticide.dfy`: tank constants, the clamped debit, the blanket-spray policy and
  its closed form.
- `event_log.dfy`: log events, recording one event, and the window lemma.
- `session.dfy`: the session class and its operations.

The code's behaviour, which the model keeps:

- No operation checks that the tank holds the dose before it sprays. Every debit
  is `max(0, tank - amount)` (app.py:250, 271, 299). A spray on an empty tank
  still marks the plot Sprayed and still counts it.
- Blanket spray tests `tank > 0` (app.py:297), not whether a whole 1.5 dose is
  left. A partly filled tank therefore sprays one more plot and empties.
  Starting at 10.0, the pass treats seven plots (`Pesticide.PartialDoseStillSprays`).
- The autonomous cycle sprays every drawn plot with one fixed 2.5 dose and logs
  only the total treated; no plot is ever left untreated, and nothing is logged
  per plot (app.py:247-251).
- Manual spray always treats its target: it sprays, debits and counts with no
  failure path (app.py:258-278).

## Model

| member | source | states |
|---|---|---|
| `Field.CellOf` | app.py:183 | a clicked tile index i in 0..15 names the plot at row i div 4, column i mod 4, inside the grid, with row * 4 + col == i |
| `Field.FlatIndex` | app.py:172-175 | tiles are listed row by row, so plot (r, c) is tile r * 4 + c, in 0..15, and `CellOf` maps it back to (r, c) |
| `Field.Marked` | app.py:184-185 | marking makes a plot Diseased exactly when it was Healthy or Sprayed (or already Diseased); any other state is left as it was |
| `Pesticide.Debit` | app.py:250 | a debit never raises the tank and takes at most the dose; the result is either empty or exactly tank minus dose (max(0, tank - dose)) |
| `Pesticide.DebitCompose` | app.py:247-250 | two clamped debits in a row equal one clamped debit of their sum, in either order, so the order of the set iteration cannot change the tank |
| `Pesticide.Reach` | app.py:297-299 | the number of blanket doses that find the tank above zero: n doses cover the tank, and n - 1 doses leave something in it |
| `Pesticide.BlanketOutcome` | app.py:294-303 | the row-major pass as a reference definition: one cell per plot, each Sprayed or Healthy |
| `Pesticide.BlanketOutcomeShape` | app.py:294-303 | plot i of the pass is Sprayed iff i < Reach(tank), otherwise Healthy: the sprayed plots form a row-major prefix |
| `Pesticide.BlanketTreated` | app.py:294-305 | plots treated by a blanket spray: at most 16; below 16 only if the tank ends empty; every treated plot found the tank above zero |
| `Pesticide.FullTankTreatsAll` | app.py:294-304 | from a full tank (100.0) all 16 plots are treated and 76.0 remains |
| `Pesticide.ExactDosesTreatExactly` | app.py:294-303 | a tank of exactly k blanket doses, k < 16, treats exactly k plots |
| `Pesticide.PartialDoseStillSprays` | app.py:297-299 | from 10.0 the pass treats seven plots: the seventh finds 1.0 left, is sprayed, and empties the tank; the eighth reverts to Healthy |
| `EventLog.Record` | app.py:95-98 | the new entry is at index 0, earlier entries shift back by one, the oldest is dropped once the length would exceed 20, and a log of at most 20 stays at most 20 |
| `EventLog.RecordAllWindow` | app.py:95-98 | after any sequence of entries, a bounded log is exactly the first min(total, 20) entries of the new entries newest first, followed by the old log |
| `Session.FieldSession.constructor` | app.py:102-111 | a fresh session: every plot Healthy, tank 100.0, counter 0, status Idle, the log holds exactly the initialisation entry |
| `Session.FieldSession.AddToLog` | app.py:95-98 | the log becomes `Record(old log, entry)` |
| `Session.FieldSession.Click` | app.py:182-186 | no click (-1) changes nothing; a click on tile i applies `Marked` to plot `CellOf(i)` and logs it iff that plot was Healthy or Sprayed; no other plot, the tank, the counter or the status changes |
| `Session.FieldSession.AutonomousCycle` | app.py:219-255 | given the drawn set D (3 to 5 plots): plots in D end Sprayed and all others Healthy, the counter grows by the size of D, the tank is debited 2.5 per plot of D floored at zero, four log entries, status back to Idle |
| `Session.FieldSession.Scan` | app.py:227-231 | after the row-major scan pass a plot is Diseased iff it is in D, otherwise Healthy |
| `Session.FieldSession.StartSpraying` | app.py:239-240 | plots in D go to Spraying, visited in any order; other plots are unchanged |
| `Session.FieldSession.FinishSpraying` | app.py:247-250 | visiting D in an arbitrary order, plots in D end Sprayed, the counter grows by the size of D and the tank equals one clamped debit of 2.5 times the size of D, whatever the order |
| `Session.FieldSession.ManualSpray` | app.py:258-278 | only the target plot changes, ending Sprayed; the counter grows by exactly 1; the tank is debited the dose floored at zero, without a sufficiency check; two log entries; status back to Idle |
| `Session.FieldSession.BlanketSpray` | app.py:281-310 | the grid equals the reference pass `BlanketOutcome`; the first `BlanketTreated` plots in row-major order are Sprayed and the rest Healthy; the counter grows by that number; the tank is debited that many 1.5 doses floored at zero; "tank empty" is logged iff fewer than 16 were treated, then the completion entry; status back to Idle |
| `Session.FieldSession.MarkAllSpraying` | app.py:285-287 | every plot is set to Spraying |
| `Session.FieldSession.SprayRowMajor` | app.py:294-303 | the pass sprays the row-major prefix of `BlanketTreated(tank)` plots and reverts the rest to Healthy; it returns that count, which is also the increase of the counter, and debits the tank by it |

The five operations — the constructor, `Click`, `AutonomousCycle`,
`ManualSpray` and `BlanketSpray` — each establish or keep `FieldSession.Valid()`.
That predicate says the grid is 4 x 4, the tank is within 0..100.0, the log has
at most 20 entries, the status is Idle, and every plot rests in Healthy,
Diseased or Sprayed. The tank is a `nat` and every update is a `Debit`, so it
never goes negative and never rises. The `ensures` of these five operations
show the counter only growing. The helpers `AddToLog`, `Scan`, `StartSpraying`,
`FinishSpraying`, `MarkAllSpraying` and `SprayRowMajor` run inside an
operation, between those resting states. They require the 4 x 4 shape
(`StartSpraying` and `FinishSpraying` also require every plot of D to be in the
grid; `AddToLog` requires nothing), do not promise `Valid()`, leave the status
as the calling operation set it, and may leave plots Spraying (`StartSpraying`
and `MarkAllSpraying` do).

## Left out

- Rendering is not modelled: the Streamlit page, sidebar widgets, the `view`
  routing, `st.rerun`, metrics, HTML styling, and the PIL tile images and fonts
  (app.py:14-20, 38-92, 114-217). This is presentation only.
- The animation copy `display_status`, `time.sleep` and the progress bars are
  not modelled. They only pace the display. The copy is the only place a plot is
  ever Scanning; the session grid never holds that state.
- `random.randint` and `random.sample` are not modelled. The drawn set of
  diseased plots is a parameter of `AutonomousCycle`, with 3 to 5 plots inside
  the grid.
- Log timestamps (`datetime.now()`) are not modelled. Entries are `Event`
  values carrying their message's data, without the formatted text.
- `battery_level` is not modelled. It is set once and no logic reads or changes
  it.
- Floats are not modelled. Tank and doses are exact integer half-units.
- Each operation is modelled as running to completion from a resting state:
  every operation requires `Valid()`, which includes status Idle. An operation
  abandoned midway, because a sidebar button pressed during its animation
  reruns the script, is not modelled; such a rerun can leave plots Spraying and
  the status busy, a state outside `Valid()` (app.py:129-151, 220, 259, 282).
- Out-of-range coordinates are not modelled as an error. The row and column
  select boxes and the tile list only offer plots inside the grid, so
  `ManualSpray` requires `InGrid(target)` and `Click` requires a tile index in
  -1..15.
- The slider that supplies the manual dose (1.0 to 10.0, app.py:142) is not
  modelled. `ManualSpray` accepts any dose in half-units, as the handler does;
  a negative dose, which the slider cannot produce, is outside the `nat` type.

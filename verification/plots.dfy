/** The column loop of `generate_plots` in analyze.py.

    Rendering is not modelled: the loop's effect is the list of actions it takes,
    creating the output directory and then saving one chart per plotted column. */
module Plots {
  import opened Wrappers
  import opened Text

  const PlotSuffix: string := "_distribution.png"

  /** A file `name` inside directory `dir` (`dir / name`). */
  datatype PlotFile = PlotFile(dir: string, name: string)

  datatype Action = EnsureDirectory(dir: string) | SavePlot(column: string, file: PlotFile)

  /** `f"{column}_distribution.png"`. */
  function PlotName(column: string): string {
    column + PlotSuffix
  }

  /** The column a chart file name was made for, if it is such a name. */
  function ColumnOfPlot(name: string): Option<string> {
    if EndsWith(name, PlotSuffix) then Some(name[..|name| - |PlotSuffix|]) else None
  }

  /** A chart's file name tells which column it charts. */
  lemma PlotNameRoundTrip(column: string)
    ensures ColumnOfPlot(PlotName(column)) == Some(column)
  {
    var name := PlotName(column);
    assert name[|name| - |PlotSuffix|..] == PlotSuffix;
    assert name[..|name| - |PlotSuffix|] == column;
  }

  /** The requested columns present in the dataset, in request order, repeats kept. */
  function Present(datasetColumns: set<string>, requested: seq<string>): seq<string> {
    if |requested| == 0 then []
    else
      var last := requested[|requested| - 1];
      Present(datasetColumns, requested[..|requested| - 1]) + (if last in datasetColumns then [last] else [])
  }

  /** A column is charted iff it was requested and the dataset has it, once per
      request; nothing else is charted. */
  lemma {:induction false} PresentSpec(datasetColumns: set<string>, requested: seq<string>)
    decreases |requested|
    ensures var cols := Present(datasetColumns, requested);
      && (forall c :: c in cols <==> c in requested && c in datasetColumns)
      && (forall c :: multiset(cols)[c] == if c in datasetColumns then multiset(requested)[c] else 0)
      && |cols| <= |requested|
  {
    if |requested| > 0 {
      var init := requested[..|requested| - 1];
      var last := requested[|requested| - 1];
      var extra := if last in datasetColumns then [last] else [];
      PresentSpec(datasetColumns, init);
      assert requested == init + [last];
      assert multiset(requested) == multiset(init) + multiset([last]);
      assert multiset(Present(datasetColumns, requested)) == multiset(Present(datasetColumns, init)) + multiset(extra);
      forall c ensures c in requested <==> c in init || c == last {
        assert c in requested <==> c in multiset(requested);
      }
    }
  }

  /** Filtering a concatenation filters each part in place, so charts follow the
      request order; a single request is charted iff the dataset has that column. */
  lemma {:induction false} PresentAppend(datasetColumns: set<string>, a: seq<string>, b: seq<string>)
    ensures Present(datasetColumns, a + b) == Present(datasetColumns, a) + Present(datasetColumns, b)
    ensures |b| == 1 ==> Present(datasetColumns, b) == (if b[0] in datasetColumns then b else [])
    decreases |b|
  {
    if |b| == 0 {
      assert a + b == a;
    } else {
      var init := b[..|b| - 1];
      var last := b[|b| - 1];
      var extra := if last in datasetColumns then [last] else [];
      assert (a + b)[..|a + b| - 1] == a + init;
      assert (a + b)[|a + b| - 1] == last;
      PresentAppend(datasetColumns, a, init);
      assert Present(datasetColumns, a + b) == Present(datasetColumns, a + init) + extra;
      if |b| == 1 {
        assert init == [];
        assert Present(datasetColumns, b) == Present(datasetColumns, []) + extra;
      }
    }
  }

  /** The columns the save actions chart, in order. */
  function Plotted(actions: seq<Action>): seq<string> {
    if |actions| == 0 then []
    else Plotted(actions[..|actions| - 1])
         + (if actions[|actions| - 1].SavePlot? then [actions[|actions| - 1].column] else [])
  }

  lemma {:induction false} PlottedSnoc(actions: seq<Action>, a: Action)
    ensures Plotted(actions + [a]) == Plotted(actions) + (if a.SavePlot? then [a.column] else [])
  {
    assert (actions + [a])[..|actions|] == actions;
  }

  /** `generate_plots`: the output directory is created first, then each
      requested column present in the dataset is charted to
      `output_dir / (column + "_distribution.png")`; absent columns are skipped. */
  method GeneratePlots(datasetColumns: set<string>, columns: seq<string>, outputDir: string)
    returns (actions: seq<Action>)
    ensures |actions| >= 1 && actions[0] == EnsureDirectory(outputDir)
    ensures forall i :: 1 <= i < |actions| ==>
              actions[i].SavePlot? && actions[i].file == PlotFile(outputDir, PlotName(actions[i].column))
    ensures Plotted(actions) == Present(datasetColumns, columns)
  {
    actions := [EnsureDirectory(outputDir)];
    var i := 0;
    while i < |columns|
      invariant 0 <= i <= |columns|
      invariant |actions| >= 1 && actions[0] == EnsureDirectory(outputDir)
      invariant forall j :: 1 <= j < |actions| ==>
                  actions[j].SavePlot? && actions[j].file == PlotFile(outputDir, PlotName(actions[j].column))
      invariant Plotted(actions) == Present(datasetColumns, columns[..i])
    {
      var column := columns[i];
      assert columns[..i + 1] == columns[..i] + [column];
      if column !in datasetColumns {
        i := i + 1;
        continue;
      }
      var action := SavePlot(column, PlotFile(outputDir, PlotName(column)));
      PlottedSnoc(actions, action);
      actions := actions + [action];
      i := i + 1;
    }
    assert columns[..|columns|] == columns;
  }

  /** The analysis test: of "Country" and "UnknownColumn", only "Country" is in a
      dataset with columns Country and Scope, so only its chart is written. */
  lemma UnknownColumnSkipped()
    ensures Present({"Country", "Scope"}, ["Country", "UnknownColumn"]) == ["Country"]
    ensures PlotName("Country") == "Country_distribution.png"
  {
    var requested := ["Country", "UnknownColumn"];
    assert requested[..1] == ["Country"];
    assert ["Country"][..0] == [];
    assert "UnknownColumn" != "Country" && "UnknownColumn" != "Scope";
  }
}
